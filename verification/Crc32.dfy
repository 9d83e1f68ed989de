/** The table-driven CRC-32 against the shift register that defines it. */
module Crc32 {

  // ------------------------------------------------------- the shift register

  /** x^32 + x^26 + x^23 + x^22 + x^16 + x^12 + x^11 + x^10 + x^8 + x^7 + x^5 + x^4 +
      x^2 + x + 1, with the highest power of x below x^32 in the lowest bit. */
  const POLYNOMIAL: bv32 := 0xEDB8_8320

  predicate Odd(x: bv32) {
    x & 1 == 1
  }

  function Half(x: bv32): bv32 {
    x >> 1
  }

  function Xor(a: bv32, b: bv32): bv32 {
    a ^ b
  }

  /** One message bit enters the register. */
  function Tick(c: bv32, bit: bool): bv32 {
    if (c & 1 == 1) != bit then (c >> 1) ^ POLYNOMIAL else c >> 1
  }

  function Serial(c: bv32, bits: seq<bool>): bv32
    decreases |bits|
  {
    if bits == [] then c else Serial(Tick(c, bits[0]), bits[1..])
  }

  /** The lowest `n` bits of `x`, lowest first. */
  function LowBits(n: nat, x: bv32): (r: seq<bool>)
    ensures |r| == n
  {
    if n == 0 then [] else [Odd(x)] + LowBits(n - 1, Half(x))
  }

  function ByteBits(b: bv8): (r: seq<bool>)
    ensures |r| == 8
  {
    LowBits(8, b as bv32)
  }

  function Bits(m: seq<bv8>): (r: seq<bool>)
    ensures |r| == 8 * |m|
  {
    if m == [] then [] else ByteBits(m[0]) + Bits(m[1..])
  }

  /** The register after all bits of the message. */
  function Register(m: seq<bv8>): bv32 {
    Serial(0xFFFF_FFFF, Bits(m))
  }

  /** The reflected CRC-32, bit by bit. */
  function Crc(m: seq<bv8>): bv32 {
    Register(m) ^ 0xFFFF_FFFF
  }

  // ------------------------------------------------------------------ the table

  const ROW0: seq<bv32> := [
    0x00000000, 0x77073096, 0xee0e612c, 0x990951ba, 0x076dc419, 0x706af48f, 0xe963a535, 0x9e6495a3,
    0x0edb8832, 0x79dcb8a4, 0xe0d5e91e, 0x97d2d988, 0x09b64c2b, 0x7eb17cbd, 0xe7b82d07, 0x90bf1d91]

  const ROW1: seq<bv32> := [
    0x1db71064, 0x6ab020f2, 0xf3b97148, 0x84be41de, 0x1adad47d, 0x6ddde4eb, 0xf4d4b551, 0x83d385c7,
    0x136c9856, 0x646ba8c0, 0xfd62f97a, 0x8a65c9ec, 0x14015c4f, 0x63066cd9, 0xfa0f3d63, 0x8d080df5]

  const ROW2: seq<bv32> := [
    0x3b6e20c8, 0x4c69105e, 0xd56041e4, 0xa2677172, 0x3c03e4d1, 0x4b04d447, 0xd20d85fd, 0xa50ab56b,
    0x35b5a8fa, 0x42b2986c, 0xdbbbc9d6, 0xacbcf940, 0x32d86ce3, 0x45df5c75, 0xdcd60dcf, 0xabd13d59]

  const ROW3: seq<bv32> := [
    0x26d930ac, 0x51de003a, 0xc8d75180, 0xbfd06116, 0x21b4f4b5, 0x56b3c423, 0xcfba9599, 0xb8bda50f,
    0x2802b89e, 0x5f058808, 0xc60cd9b2, 0xb10be924, 0x2f6f7c87, 0x58684c11, 0xc1611dab, 0xb6662d3d]

  const ROW4: seq<bv32> := [
    0x76dc4190, 0x01db7106, 0x98d220bc, 0xefd5102a, 0x71b18589, 0x06b6b51f, 0x9fbfe4a5, 0xe8b8d433,
    0x7807c9a2, 0x0f00f934, 0x9609a88e, 0xe10e9818, 0x7f6a0dbb, 0x086d3d2d, 0x91646c97, 0xe6635c01]

  const ROW5: seq<bv32> := [
    0x6b6b51f4, 0x1c6c6162, 0x856530d8, 0xf262004e, 0x6c0695ed, 0x1b01a57b, 0x8208f4c1, 0xf50fc457,
    0x65b0d9c6, 0x12b7e950, 0x8bbeb8ea, 0xfcb9887c, 0x62dd1ddf, 0x15da2d49, 0x8cd37cf3, 0xfbd44c65]

  const ROW6: seq<bv32> := [
    0x4db26158, 0x3ab551ce, 0xa3bc0074, 0xd4bb30e2, 0x4adfa541, 0x3dd895d7, 0xa4d1c46d, 0xd3d6f4fb,
    0x4369e96a, 0x346ed9fc, 0xad678846, 0xda60b8d0, 0x44042d73, 0x33031de5, 0xaa0a4c5f, 0xdd0d7cc9]

  const ROW7: seq<bv32> := [
    0x5005713c, 0x270241aa, 0xbe0b1010, 0xc90c2086, 0x5768b525, 0x206f85b3, 0xb966d409, 0xce61e49f,
    0x5edef90e, 0x29d9c998, 0xb0d09822, 0xc7d7a8b4, 0x59b33d17, 0x2eb40d81, 0xb7bd5c3b, 0xc0ba6cad]

  const ROW8: seq<bv32> := [
    0xedb88320, 0x9abfb3b6, 0x03b6e20c, 0x74b1d29a, 0xead54739, 0x9dd277af, 0x04db2615, 0x73dc1683,
    0xe3630b12, 0x94643b84, 0x0d6d6a3e, 0x7a6a5aa8, 0xe40ecf0b, 0x9309ff9d, 0x0a00ae27, 0x7d079eb1]

  const ROW9: seq<bv32> := [
    0xf00f9344, 0x8708a3d2, 0x1e01f268, 0x6906c2fe, 0xf762575d, 0x806567cb, 0x196c3671, 0x6e6b06e7,
    0xfed41b76, 0x89d32be0, 0x10da7a5a, 0x67dd4acc, 0xf9b9df6f, 0x8ebeeff9, 0x17b7be43, 0x60b08ed5]

  const ROWA: seq<bv32> := [
    0xd6d6a3e8, 0xa1d1937e, 0x38d8c2c4, 0x4fdff252, 0xd1bb67f1, 0xa6bc5767, 0x3fb506dd, 0x48b2364b,
    0xd80d2bda, 0xaf0a1b4c, 0x36034af6, 0x41047a60, 0xdf60efc3, 0xa867df55, 0x316e8eef, 0x4669be79]

  const ROWB: seq<bv32> := [
    0xcb61b38c, 0xbc66831a, 0x256fd2a0, 0x5268e236, 0xcc0c7795, 0xbb0b4703, 0x220216b9, 0x5505262f,
    0xc5ba3bbe, 0xb2bd0b28, 0x2bb45a92, 0x5cb36a04, 0xc2d7ffa7, 0xb5d0cf31, 0x2cd99e8b, 0x5bdeae1d]

  const ROWC: seq<bv32> := [
    0x9b64c2b0, 0xec63f226, 0x756aa39c, 0x026d930a, 0x9c0906a9, 0xeb0e363f, 0x72076785, 0x05005713,
    0x95bf4a82, 0xe2b87a14, 0x7bb12bae, 0x0cb61b38, 0x92d28e9b, 0xe5d5be0d, 0x7cdcefb7, 0x0bdbdf21]

  const ROWD: seq<bv32> := [
    0x86d3d2d4, 0xf1d4e242, 0x68ddb3f8, 0x1fda836e, 0x81be16cd, 0xf6b9265b, 0x6fb077e1, 0x18b74777,
    0x88085ae6, 0xff0f6a70, 0x66063bca, 0x11010b5c, 0x8f659eff, 0xf862ae69, 0x616bffd3, 0x166ccf45]

  const ROWE: seq<bv32> := [
    0xa00ae278, 0xd70dd2ee, 0x4e048354, 0x3903b3c2, 0xa7672661, 0xd06016f7, 0x4969474d, 0x3e6e77db,
    0xaed16a4a, 0xd9d65adc, 0x40df0b66, 0x37d83bf0, 0xa9bcae53, 0xdebb9ec5, 0x47b2cf7f, 0x30b5ffe9]

  const ROWF: seq<bv32> := [
    0xbdbdf21c, 0xcabac28a, 0x53b39330, 0x24b4a3a6, 0xbad03605, 0xcdd70693, 0x54de5729, 0x23d967bf,
    0xb3667a2e, 0xc4614ab8, 0x5d681b02, 0x2a6f2b94, 0xb40bbe37, 0xc30c8ea1, 0x5a05df1b, 0x2d02ef8d]

  const ROWS := [
    ROW0, ROW1, ROW2, ROW3, ROW4, ROW5, ROW6, ROW7,
    ROW8, ROW9, ROWA, ROWB, ROWC, ROWD, ROWE, ROWF]

  function Joined(rows: seq<seq<bv32>>): seq<bv32> {
    if rows == [] then [] else rows[0] + Joined(rows[1..])
  }

  /** The 256 entries of the table. */
  const TABLE: seq<bv32> := Joined(ROWS)

  lemma {:induction false} JoinedAt(rows: seq<seq<bv32>>, i: nat)
    requires (forall k | 0 <= k < |rows| :: |rows[k]| == 16) && i < 16 * |rows|
    ensures |Joined(rows)| == 16 * |rows| && Joined(rows)[i] == rows[i / 16][i % 16]
    decreases |rows|
  {
    assert forall k | 0 <= k < |rows| - 1 :: rows[1..][k] == rows[k + 1];
    if i >= 16 {
      JoinedAt(rows[1..], i - 16);
    } else if |rows| > 1 {
      JoinedAt(rows[1..], 0);
    }
  }

  // --------------------------------------------- a table entry is eight ticks

  function EightTicks(c: bv32): bv32 {
    Tick(Tick(Tick(Tick(Tick(Tick(Tick(Tick(c, false), false), false), false), false), false), false), false)
  }

  /** What the table should hold from entry `base` on, a multiple of 16. */
  function SixteenEntries(base: bv32): (r: seq<bv32>)
    ensures |r| == 16
  {
    [EightTicks(base | 0), EightTicks(base | 1), EightTicks(base | 2), EightTicks(base | 3),
     EightTicks(base | 4), EightTicks(base | 5), EightTicks(base | 6), EightTicks(base | 7),
     EightTicks(base | 8), EightTicks(base | 9), EightTicks(base | 10), EightTicks(base | 11),
     EightTicks(base | 12), EightTicks(base | 13), EightTicks(base | 14), EightTicks(base | 15)]
  }

  lemma Row0()
    ensures ROW0 == SixteenEntries(0)
  {
  }

  lemma Row1()
    ensures ROW1 == SixteenEntries(16)
  {
  }

  lemma Row2()
    ensures ROW2 == SixteenEntries(32)
  {
  }

  lemma Row3()
    ensures ROW3 == SixteenEntries(48)
  {
  }

  lemma Row4()
    ensures ROW4 == SixteenEntries(64)
  {
  }

  lemma Row5()
    ensures ROW5 == SixteenEntries(80)
  {
  }

  lemma Row6()
    ensures ROW6 == SixteenEntries(96)
  {
  }

  lemma Row7()
    ensures ROW7 == SixteenEntries(112)
  {
  }

  lemma Row8()
    ensures ROW8 == SixteenEntries(128)
  {
  }

  lemma Row9()
    ensures ROW9 == SixteenEntries(144)
  {
  }

  lemma RowA()
    ensures ROWA == SixteenEntries(160)
  {
  }

  lemma RowB()
    ensures ROWB == SixteenEntries(176)
  {
  }

  lemma RowC()
    ensures ROWC == SixteenEntries(192)
  {
  }

  lemma RowD()
    ensures ROWD == SixteenEntries(208)
  {
  }

  lemma RowE()
    ensures ROWE == SixteenEntries(224)
  {
  }

  lemma RowF()
    ensures ROWF == SixteenEntries(240)
  {
  }

  lemma EntryBelow4(base: bv32, j: bv32)
    requires j < 4
    ensures j as int < 16 && SixteenEntries(base)[j as int] == EightTicks(base | j)
  {
    hide EightTicks;
    SmallIndex(j);
    if j == 0 { assert SixteenEntries(base)[0] == EightTicks(base | 0);
    } else if j == 1 { assert SixteenEntries(base)[1] == EightTicks(base | 1);
    } else if j == 2 { assert SixteenEntries(base)[2] == EightTicks(base | 2);
    } else if j == 3 { assert SixteenEntries(base)[3] == EightTicks(base | 3);
    }
  }

  lemma EntryBelow8(base: bv32, j: bv32)
    requires 4 <= j < 8
    ensures j as int < 16 && SixteenEntries(base)[j as int] == EightTicks(base | j)
  {
    hide EightTicks;
    SmallIndex(j);
    if j == 4 { assert SixteenEntries(base)[4] == EightTicks(base | 4);
    } else if j == 5 { assert SixteenEntries(base)[5] == EightTicks(base | 5);
    } else if j == 6 { assert SixteenEntries(base)[6] == EightTicks(base | 6);
    } else if j == 7 { assert SixteenEntries(base)[7] == EightTicks(base | 7);
    }
  }

  lemma EntryBelow12(base: bv32, j: bv32)
    requires 8 <= j < 12
    ensures j as int < 16 && SixteenEntries(base)[j as int] == EightTicks(base | j)
  {
    hide EightTicks;
    SmallIndex(j);
    if j == 8 { assert SixteenEntries(base)[8] == EightTicks(base | 8);
    } else if j == 9 { assert SixteenEntries(base)[9] == EightTicks(base | 9);
    } else if j == 10 { assert SixteenEntries(base)[10] == EightTicks(base | 10);
    } else if j == 11 { assert SixteenEntries(base)[11] == EightTicks(base | 11);
    }
  }

  lemma EntryBelow16(base: bv32, j: bv32)
    requires 12 <= j < 16
    ensures j as int < 16 && SixteenEntries(base)[j as int] == EightTicks(base | j)
  {
    hide EightTicks;
    SmallIndex(j);
    if j == 12 { assert SixteenEntries(base)[12] == EightTicks(base | 12);
    } else if j == 13 { assert SixteenEntries(base)[13] == EightTicks(base | 13);
    } else if j == 14 { assert SixteenEntries(base)[14] == EightTicks(base | 14);
    } else if j == 15 { assert SixteenEntries(base)[15] == EightTicks(base | 15);
    }
  }

  lemma EntryAt(base: bv32, j: bv32)
    requires j < 16
    ensures j as int < 16 && SixteenEntries(base)[j as int] == EightTicks(base | j)
  {
    hide SixteenEntries, EightTicks;
    if j < 4 {
      EntryBelow4(base, j);
    } else if j < 8 {
      EntryBelow8(base, j);
    } else if j < 12 {
      EntryBelow12(base, j);
    } else {
      EntryBelow16(base, j);
    }
  }

  lemma SmallIndex(j: bv32)
    requires j < 16
    ensures j as int < 16
  {
  }

  lemma RowAt(k: bv32)
    requires k < 16
    ensures k as int < 16 && ROWS[k as int] == SixteenEntries(k << 4)
  {
    hide SixteenEntries;
    SmallIndex(k);
    if k == 0 { Row0();
    } else if k == 1 { Row1();
    } else if k == 2 { Row2();
    } else if k == 3 { Row3();
    } else if k == 4 { Row4();
    } else if k == 5 { Row5();
    } else if k == 6 { Row6();
    } else if k == 7 { Row7();
    } else if k == 8 { Row8();
    } else if k == 9 { Row9();
    } else if k == 10 { RowA();
    } else if k == 11 { RowB();
    } else if k == 12 { RowC();
    } else if k == 13 { RowD();
    } else if k == 14 { RowE();
    } else if k == 15 { RowF();
    }
  }

  lemma SplitIndex(x: bv32)
    requires x < 256
    ensures x as int < 256 && x >> 4 < 16 && x & 15 < 16
    ensures (x as int) / 16 == (x >> 4) as int && (x as int) % 16 == (x & 15) as int
    ensures ((x >> 4) << 4) | (x & 15) == x
  {
  }

  lemma TableEntry(x: bv32)
    requires x < 256
    ensures |TABLE| == 256 && x as int < 256 && TABLE[x as int] == EightTicks(x)
  {
    hide EightTicks, SixteenEntries, Joined;
    SplitIndex(x);
    forall k | 0 <= k < 16 ensures |ROWS[k]| == 16 { assert |ROWS[k]| == 16; }
    JoinedAt(ROWS, x as int);
    RowAt(x >> 4);
    EntryAt((x >> 4) << 4, x & 15);
  }

  // ------------------------------------------------ eight bits in a single step

  /** The bit may as well be mixed into the register beforehand. */
  lemma TickMixed(c: bv32, b: bv32)
    ensures Tick(Xor(c, b), false) == Xor(Tick(c, Odd(b)), Half(b))
  {
    Fired(c, Odd(b));
    Fired(Xor(c, b), false);
    OddMixed(c, b);
    XorHalf(c, b);
    XorSwap(Half(c), Half(b), POLYNOMIAL);
    hide Tick, Xor, Odd, Half;
  }

  lemma OddMixed(c: bv32, b: bv32)
    ensures Odd(Xor(c, b)) <==> Odd(c) != Odd(b)
  {
  }

  lemma XorSwap(x: bv32, y: bv32, z: bv32)
    ensures Xor(Xor(x, y), z) == Xor(Xor(x, z), y)
  {
    XorRegroup(x, y, z);
    XorRegroup(x, z, y);
    XorTurned(y, z);
    hide Xor;
  }

  lemma XorRegroup(x: bv32, y: bv32, z: bv32)
    ensures Xor(Xor(x, y), z) == Xor(x, Xor(y, z))
  {
  }

  lemma XorTurned(x: bv32, y: bv32)
    ensures Xor(x, y) == Xor(y, x)
  {
  }

  function Ticks(n: nat, c: bv32): bv32 {
    if n == 0 then c else Ticks(n - 1, Tick(c, false))
  }

  function Above(n: nat, x: bv32): bv32 {
    if n == 0 then x else Above(n - 1, Half(x))
  }

  /** Message bits may enter all at once; those not reached yet stay mixed in. */
  lemma {:induction false} TicksMixed(n: nat, c: bv32, b: bv32)
    ensures Ticks(n, Xor(c, b)) == Xor(Serial(c, LowBits(n, b)), Above(n, b))
    decreases n
  {
    hide Tick, Xor, Odd, Half;
    if n > 0 {
      TickMixed(c, b);
      TicksMixed(n - 1, Tick(c, Odd(b)), Half(b));
      assert LowBits(n, b)[1..] == LowBits(n - 1, Half(b));
    }
  }

  /** Zero bits that enter are plain ticks. */
  lemma {:induction false} NoBits(n: nat, c: bv32)
    ensures Serial(c, LowBits(n, 0)) == Ticks(n, c)
  {
    hide Tick;
    if n > 0 {
      NoBits(n - 1, Tick(c, false));
      assert Half(0) == 0 && !Odd(0);
      assert LowBits(n, 0)[1..] == LowBits(n - 1, 0);
    }
  }

  predicate LowClear(n: nat, x: bv32) {
    n == 0 || (!Odd(x) && LowClear(n - 1, Half(x)))
  }

  lemma {:induction false} ClearBits(n: nat, x: bv32)
    requires LowClear(n, x)
    ensures LowBits(n, x) == LowBits(n, 0)
  {
    hide Odd, Half;
    if n > 0 {
      ClearBits(n - 1, Half(x));
      ZeroIsClear();
    }
  }

  lemma ZeroIsClear()
    ensures !Odd(0) && Half(0) == 0
  {
  }

  lemma ByteClear(x: bv32)
    requires x & 0xFF == 0
    ensures LowClear(8, x)
  {
    var x1 := Half(x);
    var x2 := Half(x1);
    var x3 := Half(x2);
    var x4 := Half(x3);
    assert !Odd(x) && !Odd(x1) && !Odd(x2) && !Odd(x3) && x4 & 0xF == 0;
    var x5 := Half(x4);
    var x6 := Half(x5);
    var x7 := Half(x6);
    assert !Odd(x4) && !Odd(x5) && !Odd(x6) && !Odd(x7);
    hide Odd, Half;
    assert LowClear(1, x7);
    assert LowClear(2, x6);
    assert LowClear(3, x5);
    assert LowClear(4, x4);
    assert LowClear(5, x3);
    assert LowClear(6, x2);
    assert LowClear(7, x1);
  }

  lemma EightAre(c: bv32)
    ensures Ticks(8, c) == EightTicks(c)
  {
    hide Tick;
    var c1 := Tick(c, false);
    var c2 := Tick(c1, false);
    var c3 := Tick(c2, false);
    var c4 := Tick(c3, false);
    assert Ticks(8, c) == Ticks(6, c2);
    assert Ticks(6, c2) == Ticks(4, c4);
    var c6 := Tick(Tick(c4, false), false);
    assert Ticks(4, c4) == Ticks(2, c6);
    assert Ticks(1, Tick(c6, false)) == Tick(Tick(c6, false), false);
  }

  lemma EightAbove(b: bv32)
    ensures Above(8, b) == b >> 8
  {
    hide Half;
    var b1 := Half(b);
    var b2 := Half(b1);
    var b3 := Half(b2);
    var b4 := Half(b3);
    assert Above(8, b) == Above(6, b2);
    assert Above(6, b2) == Above(4, b4);
    var b6 := Half(Half(b4));
    assert Above(4, b4) == Above(2, b6);
    assert Above(1, Half(b6)) == Half(Half(b6));
    FourHalves(b);
    FourHalves(b4);
    assert (b >> 4) >> 4 == b >> 8;
  }

  lemma FourHalves(b: bv32)
    ensures Half(Half(Half(Half(b)))) == b >> 4
  {
  }

  /** A whole byte enters at once: eight ticks of the register with the byte mixed in. */
  lemma EightMixed(c: bv32, b: bv32)
    ensures EightTicks(Xor(c, b)) == Xor(Serial(c, LowBits(8, b)), b >> 8)
  {
    hide *;
    TicksMixed(8, c, b);
    EightAre(Xor(c, b));
    EightAbove(b);
  }

  /** The byte needs mixing into the low eight bits only. */
  lemma ByteStep(c: bv32, b: bv8)
    ensures Serial(c, ByteBits(b)) == Xor(EightTicks((c & 0xFF) ^ (b as bv32)), c >> 8)
  {
    var (w, x, h) := (b as bv32, (c & 0xFF) ^ (b as bv32), c & 0xFFFF_FF00);
    LowByte(c, b);
    ByteClear(h);
    hide *;
    EightMixed(c, w);
    EightMixed(x, h);
    ClearBits(8, h);
    NoBits(8, x);
    EightAre(x);
    ByteBitsAre(b);
    XorFacts(Serial(c, ByteBits(b)), 0, 0);
  }

  lemma ByteBitsAre(b: bv8)
    ensures ByteBits(b) == LowBits(8, b as bv32)
  {
    hide LowBits;
  }

  /** One look into the table does the work of eight ticks. */
  lemma TableStep(c: bv32, b: bv8)
    ensures |TABLE| == 256 && ((c & 0xFF) ^ (b as bv32)) as int < 256
    ensures (c >> 8) ^ TABLE[((c & 0xFF) ^ (b as bv32)) as int] == Serial(c, ByteBits(b))
  {
    LowByte(c, b);
    hide *;
    TableEntry((c & 0xFF) ^ (b as bv32));
    ByteStep(c, b);
    XorFacts(0, EightTicks((c & 0xFF) ^ (b as bv32)), c >> 8);
  }

  lemma XorFacts(s: bv32, t: bv32, u: bv32)
    ensures Xor(s, 0) == s && Xor(t, u) == u ^ t
  {
  }

  lemma LowByte(c: bv32, b: bv8)
    ensures (c & 0xFF) ^ (b as bv32) < 256 && (b as bv32) >> 8 == 0
    ensures Xor((c & 0xFF) ^ (b as bv32), c & 0xFFFF_FF00) == Xor(c, b as bv32)
    ensures (c & 0xFFFF_FF00) & 0xFF == 0 && (c & 0xFFFF_FF00) >> 8 == c >> 8
  {
  }

  // -------------------------------------------------------------- the algorithm

  lemma {:induction false} SerialAppend(c: bv32, x: seq<bool>, y: seq<bool>)
    ensures Serial(c, x + y) == Serial(Serial(c, x), y)
    decreases |x|
  {
    hide Tick;
    if x == [] {
      assert x + y == y;
    } else {
      SerialAppend(Tick(c, x[0]), x[1..], y);
      assert (x + y)[0] == x[0] && (x + y)[1..] == x[1..] + y;
    }
  }

  lemma BitsCons(b: bv8, m: seq<bv8>)
    ensures Bits([b] + m) == ByteBits(b) + Bits(m)
  {
    hide ByteBits;
    assert ([b] + m)[1..] == m;
  }

  lemma {:induction false} BitsAppend(a: seq<bv8>, b: seq<bv8>)
    ensures Bits(a + b) == Bits(a) + Bits(b)
  {
    if a == [] {
      assert a + b == b && Bits(a) == [];
    } else {
      hide Bits, ByteBits;
      var (x, t) := (a[0], a[1..]);
      assert a == [x] + t && a + b == [x] + (t + b);
      BitsAppend(t, b);
      BitsCons(x, t);
      BitsCons(x, t + b);
      Regrouped(ByteBits(x), Bits(t), Bits(b));
    }
  }

  lemma Regrouped(a: seq<bool>, b: seq<bool>, c: seq<bool>)
    ensures (a + b) + c == a + (b + c)
  {
  }

  lemma OneByte(b: bv8)
    ensures Bits([b]) == ByteBits(b)
  {
    hide ByteBits;
    assert [b][1..] == [] && Bits([]) == [];
  }

  /** One pass of the loop. */
  function Advance(c: bv32, b: bv8): (r: bv32)
    ensures r == Serial(c, ByteBits(b))
  {
    TableStep(c, b);
    (c >> 8) ^ TABLE[((c & 0xFF) ^ (b as bv32)) as int]
  }

  /** The checksum of a byte string, one table lookup for each byte. */
  method Compute(buffer: seq<bv8>) returns (crc: bv32)
    ensures crc == Crc(buffer)
  {
    hide *;
    crc := 0xFFFF_FFFF;
    var b: nat, len: nat := 0, |buffer|;
    NoMessage();
    while len > 0
      invariant b + len == |buffer|
      invariant crc == Register(buffer[..b])
    {
      len := len - 1;
      RegisterSnoc(buffer[..b], buffer[b]);
      assert buffer[..b + 1] == buffer[..b] + [buffer[b]];
      crc := Advance(crc, buffer[b]);
      b := b + 1;
    }
    assert buffer[..b] == buffer;
    CrcOf(buffer);
    crc := crc ^ 0xFFFF_FFFF;
  }

  lemma NoMessage()
    ensures Register([]) == 0xFFFF_FFFF
  {
  }

  lemma CrcOf(m: seq<bv8>)
    ensures Crc(m) == Register(m) ^ 0xFFFF_FFFF
  {
  }

  lemma RegisterAppend(a: seq<bv8>, b: seq<bv8>)
    ensures Register(a + b) == Serial(Register(a), Bits(b))
  {
    hide Serial, Bits;
    BitsAppend(a, b);
    SerialAppend(0xFFFF_FFFF, Bits(a), Bits(b));
  }

  lemma RegisterSnoc(m: seq<bv8>, b: bv8)
    ensures Register(m + [b]) == Serial(Register(m), ByteBits(b))
  {
    hide *;
    RegisterAppend(m, [b]);
    OneByte(b);
  }

  /** The checksum of a concatenation continues from the checksum of its front. */
  lemma CrcContinues(a: seq<bv8>, b: seq<bv8>)
    ensures Crc(a + b) == Serial(Crc(a) ^ 0xFFFF_FFFF, Bits(b)) ^ 0xFFFF_FFFF
  {
    hide *;
    CrcOf(a + b);
    RegisterAppend(a, b);
    CrcOf(a);
    Resumed(Crc(a), Register(a));
  }

  lemma Resumed(c: bv32, r: bv32)
    requires c == r ^ 0xFFFF_FFFF
    ensures c ^ 0xFFFF_FFFF == r
  {
  }

  lemma NextByte(m: seq<bv8>, c: bv32, b: bv8, d: bv32)
    requires Register(m) == c && (c >> 8) ^ EightTicks((c & 0xFF) ^ (b as bv32)) == d
    ensures Register(m + [b]) == d
  {
    RegisterSnoc(m, b);
    ByteStep(c, b);
    XorFacts(0, EightTicks((c & 0xFF) ^ (b as bv32)), c >> 8);
    hide *;
  }

  /** The check value by which this CRC is known: that of the text "123456789". */
  lemma CheckValue()
    ensures Crc([0x31, 0x32, 0x33, 0x34, 0x35, 0x36, 0x37, 0x38, 0x39]) == 0xCBF4_3926
  {
    NoMessage();
    hide Register, Crc;
    var m: seq<bv8> := [];
    var c: bv32 := 0xFFFF_FFFF;
    NextByte(m, c, 0x31, 0x7c231048);
    m, c := m + [0x31], 0x7c231048;
    NextByte(m, c, 0x32, 0xb0acbb32);
    m, c := m + [0x32], 0xb0acbb32;
    NextByte(m, c, 0x33, 0x77b79c2d);
    m, c := m + [0x33], 0x77b79c2d;
    NextByte(m, c, 0x34, 0x641c1f5c);
    m, c := m + [0x34], 0x641c1f5c;
    NextByte(m, c, 0x35, 0x340ac5e3);
    m, c := m + [0x35], 0x340ac5e3;
    NextByte(m, c, 0x36, 0xf68d2c9e);
    m, c := m + [0x36], 0xf68d2c9e;
    NextByte(m, c, 0x37, 0xaffc9660);
    m, c := m + [0x37], 0xaffc9660;
    NextByte(m, c, 0x38, 0x651f2550);
    m, c := m + [0x38], 0x651f2550;
    NextByte(m, c, 0x39, 0x340bc6d9);
    m, c := m + [0x39], 0x340bc6d9;
    assert m == [0x31, 0x32, 0x33, 0x34, 0x35, 0x36, 0x37, 0x38, 0x39];
    CrcOf(m);
  }

  // ------------------------------------------------------------ burst detection

  /** The register runs backwards: top bit and the rest tell what it was. */
  lemma TickInjective(c: bv32, d: bv32, bit: bool)
    requires Tick(c, bit) == Tick(d, bit)
    ensures c == d
  {
  }

  lemma {:induction false} SerialInjective(c: bv32, d: bv32, bits: seq<bool>)
    requires Serial(c, bits) == Serial(d, bits)
    ensures c == d
    decreases |bits|
  {
    hide Tick;
    if bits != [] {
      SerialInjective(Tick(c, bits[0]), Tick(d, bits[0]), bits[1..]);
      TickInjective(c, d, bits[0]);
    }
  }

  lemma XorHalf(a: bv32, b: bv32)
    ensures Half(Xor(a, b)) == Xor(Half(a), Half(b))
  {
  }

  lemma {:induction false} XorAbove(n: nat, a: bv32, b: bv32)
    ensures Above(n, Xor(a, b)) == Xor(Above(n, a), Above(n, b))
  {
    hide Xor, Half;
    if n > 0 {
      XorHalf(a, b);
      XorAbove(n - 1, Half(a), Half(b));
    }
  }

  lemma {:induction false} AboveAbove(m: nat, n: nat, x: bv32)
    ensures Above(m, Above(n, x)) == Above(n + m, x)
    decreases n
  {
    hide Half;
    if n > 0 { AboveAbove(m, n - 1, Half(x)); }
  }

  lemma TopBit(x: bv32)
    ensures Above(31, x) == x >> 31
  {
    var x8 := Above(8, x);
    var x16 := Above(8, x8);
    var x24 := Above(8, x16);
    AboveAbove(8, 8, x);
    AboveAbove(8, 16, x);
    AboveAbove(7, 24, x);
    EightAbove(x);
    EightAbove(x8);
    EightAbove(x16);
    SevenAbove(x24);
    assert (((x >> 8) >> 8) >> 8) >> 7 == x >> 31;
  }

  lemma SevenAbove(b: bv32)
    ensures Above(7, b) == b >> 7
  {
    hide Half;
    var b3 := Half(Half(Half(b)));
    assert Above(7, b) == Above(6, Half(b));
    assert Above(6, Half(b)) == Above(4, b3);
    FourHalves(b3);
    var b5 := Half(Half(b3));
    assert Above(4, b3) == Above(2, b5);
    assert Above(1, Half(b5)) == Half(Half(b5));
    ThreeHalves(b);
  }

  lemma ThreeHalves(b: bv32)
    ensures Half(Half(Half(b))) >> 4 == b >> 7
  {
  }

  /** Registers that agree above their lowest 31 bits or fewer have the same top bit. */
  lemma SameTop(n: nat, a: bv32, b: bv32)
    requires n <= 31 && Above(n, a) == Above(n, b)
    ensures a >> 31 == b >> 31
  {
    hide Above;
    AboveAbove(31 - n, n, a);
    AboveAbove(31 - n, n, b);
    TopBit(a);
    TopBit(b);
  }

  /** Whether the polynomial was applied shows in the top bit. */
  lemma Fired(c: bv32, bit: bool)
    ensures Tick(c, bit) >> 31 == 1 <==> Odd(c) != bit
    ensures Tick(c, bit) == if Odd(c) != bit then Xor(Half(c), POLYNOMIAL) else Half(c)
  {
  }

  lemma Cancel(a: bv32, b: bv32, p: bv32)
    requires Xor(a, p) == Xor(b, p)
    ensures a == b
  {
  }

  /** If two runs end in the same register, `k` bits earlier the registers agreed
      above their lowest `k` bits. */
  lemma {:induction false} Agree(c: bv32, d: bv32, x: seq<bool>, y: seq<bool>)
    requires |x| == |y| <= 32 && Serial(c, x) == Serial(d, y)
    ensures Above(|x|, c) == Above(|x|, d)
    decreases |x|
  {
    hide Tick, Xor, Half, Odd;
    if x != [] {
      var (c', d', n) := (Tick(c, x[0]), Tick(d, y[0]), |x| - 1);
      Agree(c', d', x[1..], y[1..]);
      Fired(c, x[0]);
      Fired(d, y[0]);
      SameTop(n, c', d');
      XorAbove(n, Half(c), POLYNOMIAL);
      XorAbove(n, Half(d), POLYNOMIAL);
      if c' != Half(c) || d' != Half(d) {
        Cancel(Above(n, Half(c)), Above(n, Half(d)), Above(n, POLYNOMIAL));
      }
    }
  }

  /** From the same register, different bit strings of at most 32 bits lead to
      different registers. */
  lemma {:induction false} BurstDiffers(c: bv32, x: seq<bool>, y: seq<bool>)
    requires |x| == |y| <= 32 && x != y
    ensures Serial(c, x) != Serial(c, y)
    decreases |x|
  {
    hide Tick, Xor, Half, Odd;
    if x[0] == y[0] {
      assert x == [x[0]] + x[1..] && y == [y[0]] + y[1..];
      BurstDiffers(Tick(c, x[0]), x[1..], y[1..]);
    } else if Serial(c, x) == Serial(c, y) {
      Agree(Tick(c, x[0]), Tick(c, y[0]), x[1..], y[1..]);
      SameTop(|x| - 1, Tick(c, x[0]), Tick(c, y[0]));
      Fired(c, x[0]);
      Fired(c, y[0]);
    }
  }

  /** Any change within 32 consecutive bits is detected, whatever surrounds it. */
  lemma BurstDetected(c: bv32, front: seq<bool>, x: seq<bool>, y: seq<bool>, back: seq<bool>)
    requires |x| == |y| <= 32 && x != y
    ensures Serial(c, front + x + back) != Serial(c, front + y + back)
  {
    var c' := Serial(c, front);
    SerialAppend(c, front + x, back);
    SerialAppend(c, front + y, back);
    SerialAppend(c, front, x);
    SerialAppend(c, front, y);
    BurstDiffers(c', x, y);
    if Serial(c, front + x + back) == Serial(c, front + y + back) {
      SerialInjective(Serial(c', x), Serial(c', y), back);
    }
  }

  lemma ByteBitsDiffer(a: bv8, b: bv8)
    requires ByteBits(a) == ByteBits(b)
    ensures a == b
  {
    var (x, y) := (a as bv32, b as bv32);
    ByteBitsAre(a);
    ByteBitsAre(b);
    EightAbove(x);
    EightAbove(y);
    LowBitsDiffer(8, x, y);
  }

  lemma HalfDiffer(x: bv32, y: bv32)
    requires Odd(x) == Odd(y) && Half(x) == Half(y)
    ensures x == y
  {
  }

  lemma {:induction false} LowBitsDiffer(n: nat, x: bv32, y: bv32)
    requires LowBits(n, x) == LowBits(n, y) && Above(n, x) == Above(n, y)
    ensures x == y
    decreases n
  {
    hide Odd, Half;
    if n > 0 {
      var (bs, cs) := (LowBits(n, x), LowBits(n, y));
      assert bs[0] == Odd(x) && cs[0] == Odd(y);
      assert bs[1..] == LowBits(n - 1, Half(x)) && cs[1..] == LowBits(n - 1, Half(y));
      LowBitsDiffer(n - 1, Half(x), Half(y));
      HalfDiffer(x, y);
    }
  }

  lemma {:induction false} BitsDiffer(a: seq<bv8>, b: seq<bv8>)
    requires |a| == |b| && a != b
    ensures Bits(a) != Bits(b)
  {
    hide ByteBits;
    var (x, y) := (Bits(a), Bits(b));
    assert x[..8] == ByteBits(a[0]) && x[8..] == Bits(a[1..]);
    assert y[..8] == ByteBits(b[0]) && y[8..] == Bits(b[1..]);
    if a[0] == b[0] {
      assert a == [a[0]] + a[1..] && b == [b[0]] + b[1..];
      BitsDiffer(a[1..], b[1..]);
    } else if ByteBits(a[0]) == ByteBits(b[0]) {
      ByteBitsDiffer(a[0], b[0]);
    }
  }

  /** Any change confined to four consecutive bytes changes the checksum. */
  lemma ChangeDetected(front: seq<bv8>, x: seq<bv8>, y: seq<bv8>, back: seq<bv8>)
    requires |x| == |y| <= 4 && x != y
    ensures Crc(front + x + back) != Crc(front + y + back)
  {
    hide *;
    BitsDiffer(x, y);
    BitsAppend(front + x, back);
    BitsAppend(front, x);
    BitsAppend(front + y, back);
    BitsAppend(front, y);
    BitsLength(x);
    BitsLength(y);
    BurstDetected(0xFFFF_FFFF, Bits(front), Bits(x), Bits(y), Bits(back));
    RegisterOf(front + x + back);
    RegisterOf(front + y + back);
    CrcDiffers(front + x + back, front + y + back);
  }

  lemma RegisterOf(m: seq<bv8>)
    ensures Register(m) == Serial(0xFFFF_FFFF, Bits(m))
  {
  }

  lemma BitsLength(m: seq<bv8>)
    ensures |Bits(m)| == 8 * |m|
  {
  }

  lemma CrcDiffers(a: seq<bv8>, b: seq<bv8>)
    requires Register(a) != Register(b)
    ensures Crc(a) != Crc(b)
  {
    hide *;
    CrcOf(a);
    CrcOf(b);
    InvertedDiffer(Register(a), Register(b));
  }

  lemma InvertedDiffer(x: bv32, y: bv32)
    requires x != y
    ensures x ^ 0xFFFF_FFFF != y ^ 0xFFFF_FFFF
  {
  }
}
