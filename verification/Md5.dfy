/** The MD5 message digest of RFC 1321, computed over a message that arrives in
    pieces. The rounds that mix one 64-byte block into the state are a parameter. */
module Md5 {
  import opened Basics

  type Byte = x: int | 0 <= x < 0x100
  type Word = x: int | 0 <= x < 0x1_0000_0000
  type Words = s: seq<Word> | |s| == 4 witness [0, 0, 0, 0]
  type Chunk = s: seq<Byte> | |s| == 64 witness seq(64, _ => 0)
  type Transform = (Words, Chunk) -> Words

  const WORD: int := 0x1_0000_0000
  const START: Words := [0x67452301, 0xefcdab89, 0x98badcfe, 0x10325476]

  // ---------------------------------------------------- what RFC 1321 asks for

  /** The state after all complete blocks of `m`. */
  function Fold(mix: Transform, s: Words, m: seq<Byte>): Words
    decreases |m|
  {
    if |m| < 64 then s else Fold(mix, mix(s, m[..64]), m[64..])
  }

  /** What is left of `m` behind its last complete block. */
  function Rest(m: seq<Byte>): seq<Byte> {
    m[|m| - |m| % 64..]
  }

  /** The number `x` in `n` bytes, lowest first. */
  function LittleEndian(x: int, n: nat): (r: seq<Byte>)
    ensures |r| == n
    decreases n
  {
    if n == 0 then [] else [x % 0x100] + LittleEndian(x / 0x100, n - 1)
  }

  /** Words as bytes, lowest first. */
  function Bytes(ws: seq<Word>): (r: seq<Byte>)
    ensures |r| == 4 * |ws|
  {
    if ws == [] then [] else LittleEndian(ws[0], 4) + Bytes(ws[1..])
  }

  function Zeros(n: nat): (r: seq<Byte>)
    ensures |r| == n
  {
    seq(n, _ => 0)
  }

  /** Sections 3.1 and 3.2: one bit, zeros up to 56 modulo 64 bytes, and the length
      in bits modulo 2^64. */
  function Padded(m: seq<Byte>): seq<Byte> {
    m + [0x80] + Zeros((55 - |m|) % 64) + LittleEndian(8 * |m| % (WORD * WORD), 8)
  }

  /** The digest of sections 3.3 to 3.5. */
  function Digest(mix: Transform, m: seq<Byte>): seq<Byte> {
    Bytes(Fold(mix, START, Padded(m)))
  }

  // ------------------------------------------------------------ about the fold

  /** Going on with the state and the rest is as good as starting again. */
  lemma {:induction false} FoldSplit(mix: Transform, s: Words, m: seq<Byte>, x: seq<Byte>)
    ensures Fold(mix, s, m + x) == Fold(mix, Fold(mix, s, m), Rest(m) + x)
    ensures Rest(m + x) == Rest(Rest(m) + x)
    decreases |m|
  {
    hide Fold, Rest;
    if |m| < 64 {
      FoldNone(mix, s, m);
    } else {
      FoldOnce(mix, s, m);
      FoldOnce(mix, s, m + x);
      assert (m + x)[..64] == m[..64] && (m + x)[64..] == m[64..] + x;
      FoldSplit(mix, mix(s, m[..64]), m[64..], x);
    }
  }

  lemma FoldOnce(mix: Transform, s: Words, m: seq<Byte>)
    requires |m| >= 64
    ensures Fold(mix, s, m) == Fold(mix, mix(s, m[..64]), m[64..]) && Rest(m) == Rest(m[64..])
  {
    RestDrop(m);
    hide Rest;
  }

  /** The padding, byte by byte: whole blocks, and not one more than needed; 0x80 behind the
      message, then zeros, then the length in bits. */
  lemma PaddedIs(m: seq<Byte>, i: nat)
    requires i < |Padded(m)|
    ensures |Padded(m)| % 64 == 0 && |m| + 9 <= |Padded(m)| < |m| + 9 + 64
    ensures i < |m| ==> Padded(m)[i] == m[i]
    ensures i == |m| ==> Padded(m)[i] == 0x80
    ensures |m| < i < |Padded(m)| - 8 ==> Padded(m)[i] == 0
    ensures Number(Padded(m)[|Padded(m)| - 8..]) == 8 * |m| % 0x1_0000_0000_0000_0000
  {
    PaddedLength(m);
    PaddedTail(m);
    hide LittleEndian, Number;
  }

  lemma PaddedLength(m: seq<Byte>)
    ensures |Padded(m)| % 64 == 0 && |m| + 9 <= |Padded(m)| < |m| + 9 + 64
  {
    hide LittleEndian;
    var (n, z, q) := (|m|, (55 - |m|) % 64, (55 - |m|) / 64);
    assert 55 - n == 64 * q + z;
    Division(n + 9 + z, 64, 1 - q, 0);
  }

  lemma PaddedTail(m: seq<Byte>)
    ensures |Padded(m)| >= 8
    ensures Number(Padded(m)[|Padded(m)| - 8..]) == 8 * |m| % 0x1_0000_0000_0000_0000
  {
    var n := 8 * |m| % (WORD * WORD);
    EightBytes();
    NumberBack(n, 8, WORD * WORD);
    hide LittleEndian, Number, Zeros;
    Tail(m + [0x80] + Zeros((55 - |m|) % 64), LittleEndian(n, 8));
  }

  /** A block is mixed into the state, one after the other. */
  lemma FoldOne(mix: Transform, s: Words, block: Chunk, m: seq<Byte>)
    ensures Fold(mix, s, block + m) == Fold(mix, mix(s, block), m)
  {
    assert (block + m)[..64] == block && (block + m)[64..] == m;
  }

  lemma FoldNone(mix: Transform, s: Words, m: seq<Byte>)
    requires |m| < 64
    ensures Fold(mix, s, m) == s && Rest(m) == m
  {
  }

  lemma RestLength(m: seq<Byte>)
    ensures |Rest(m)| == |m| % 64
  {
  }

  lemma RestDrop(m: seq<Byte>)
    requires |m| >= 64
    ensures Rest(m[64..]) == Rest(m)
  {
    assert (|m| - 64) % 64 == |m| % 64;
  }

  // ------------------------------------------------- bytes, words and numbers

  lemma LittleEndianFour(x: int)
    ensures LittleEndian(x, 4) == [x % 0x100, x / 0x100 % 0x100, x / 0x1_0000 % 0x100, x / 0x100_0000 % 0x100]
  {
    assert x / 0x100 / 0x100 == x / 0x1_0000;
    assert x / 0x1_0000 / 0x100 == x / 0x100_0000;
    assert LittleEndian(x / 0x100_0000, 1) == [x / 0x100_0000 % 0x100] + LittleEndian(x / 0x100_0000 / 0x100, 0);
    assert LittleEndian(x / 0x1_0000, 2) == [x / 0x1_0000 % 0x100] + LittleEndian(x / 0x100_0000, 1);
    assert LittleEndian(x / 0x100, 3) == [x / 0x100 % 0x100] + LittleEndian(x / 0x1_0000, 2);
  }

  /** A multiple of 256^n does not show in the lowest n bytes. */
  lemma {:induction false} LowOnly(low: int, high: int, n: nat)
    ensures LittleEndian(low + Power256(n) * high, n) == LittleEndian(low, n)
    decreases n
  {
    if n > 0 {
      Power256Times(n, high);
      LowByte(low, Power256(n - 1) * high);
      LowOnly(low / 0x100, high, n - 1);
    }
  }

  lemma Power256Times(n: nat, x: int)
    requires n > 0
    ensures Power256(n) * x == 0x100 * (Power256(n - 1) * x)
  {
    var p := Power256(n - 1);
    assert (0x100 * p) * x == 0x100 * (p * x);
  }

  lemma LowByte(low: int, rest: int)
    ensures (low + 0x100 * rest) % 0x100 == low % 0x100
    ensures (low + 0x100 * rest) / 0x100 == low / 0x100 + rest
  {
  }

  /** Two words, low word first, spell the same bytes as one number of 64 bits. */
  lemma TwoWords(low: Word, high: Word)
    ensures Bytes([low, high]) == LittleEndian(low + WORD * high, 8)
  {
    hide LittleEndian;
    LittleEndianSplit(low + WORD * high);
    FourBytes();
    LowOnly(low, high, 4);
    assert [low, high][1..] == [high] && [high][1..] == [];
    assert Bytes([high]) == LittleEndian(high, 4) + Bytes([]);
  }

  lemma EightBytes()
    ensures Power256(8) == WORD * WORD
  {
    FourBytes();
    assert Power256(5) == 0x100 * WORD;
  }

  lemma FourBytes()
    ensures Power256(4) == WORD
  {
  }

  lemma LittleEndianSplit(x: int)
    ensures LittleEndian(x, 8) == LittleEndian(x, 4) + LittleEndian(x / WORD, 4)
  {
    var (a, b, c, d) := (x / 0x100, x / 0x1_0000, x / 0x100_0000, x / WORD);
    assert a / 0x100 == b && b / 0x100 == c && c / 0x100 == d;
    LittleEndianFour(x);
    assert LittleEndian(c, 5) == [c % 0x100] + LittleEndian(d, 4);
    assert LittleEndian(b, 6) == [b % 0x100] + LittleEndian(c, 5);
    assert LittleEndian(a, 7) == [a % 0x100] + LittleEndian(b, 6);
  }

  /** The number that bytes spell, lowest first. */
  function Number(bs: seq<Byte>): int {
    if bs == [] then 0 else bs[0] + 0x100 * Number(bs[1..])
  }

  function Words4(bs: seq<Byte>): (ws: seq<int>)
    requires |bs| % 4 == 0
    ensures |ws| == |bs| / 4
  {
    if bs == [] then [] else [Number(bs[..4])] + Words4(bs[4..])
  }

  lemma {:induction false} NumberBack(x: int, n: nat, bound: int)
    requires 0 <= x < bound && bound == Power256(n)
    ensures Number(LittleEndian(x, n)) == x
  {
    if n > 0 {
      assert 0 <= x / 0x100 < Power256(n - 1);
      NumberBack(x / 0x100, n - 1, Power256(n - 1));
      assert LittleEndian(x, n)[1..] == LittleEndian(x / 0x100, n - 1);
    }
  }

  function Power256(n: nat): int {
    if n == 0 then 1 else 0x100 * Power256(n - 1)
  }

  /** Reading words back from their bytes recovers them. */
  lemma {:induction false} WordsBack(ws: seq<Word>)
    ensures Words4(Bytes(ws)) == ws
  {
    if ws != [] {
      WordsBack(ws[1..]);
      FourBytes();
      NumberBack(ws[0], 4, WORD);
      var bs := Bytes(ws);
      assert bs[..4] == LittleEndian(ws[0], 4) && bs[4..] == Bytes(ws[1..]);
    }
  }

  /** The bytes that section 3.3 gives for the start: they count up by 0x22, and down again. */
  lemma StartBytes()
    ensures Bytes(START) == [0x01, 0x23, 0x45, 0x67, 0x89, 0xab, 0xcd, 0xef,
                             0xfe, 0xdc, 0xba, 0x98, 0x76, 0x54, 0x32, 0x10]
  {
    FirstWords();
    LastWords();
    hide *;
  }

  lemma FirstWords()
    ensures Bytes(START) == [0x01, 0x23, 0x45, 0x67, 0x89, 0xab, 0xcd, 0xef] + Bytes(START[2..])
  {
    assert START[0..] == START;
    StartWord(0, [0x01, 0x23, 0x45, 0x67]);
    StartWord(1, [0x89, 0xab, 0xcd, 0xef]);
    hide Bytes;
  }

  lemma LastWords()
    ensures Bytes(START[2..]) == [0xfe, 0xdc, 0xba, 0x98, 0x76, 0x54, 0x32, 0x10]
  {
    StartWord(2, [0xfe, 0xdc, 0xba, 0x98]);
    StartWord(3, [0x76, 0x54, 0x32, 0x10]);
    assert START[4..] == [];
    NoBytes(START[4..]);
    hide Bytes;
  }

  lemma StartWord(k: nat, bs: seq<Byte>)
    requires k < 4 && |bs| == 4
    requires START[k] == bs[0] as int + 0x100 * (bs[1] as int) + 0x1_0000 * (bs[2] as int) + 0x100_0000 * (bs[3] as int)
    ensures Bytes(START[k..]) == bs + Bytes(START[k + 1..])
  {
    BytesStep(START[k..]);
    LittleEndianFour(START[k]);
    FourBack(bs[0], bs[1], bs[2], bs[3]);
    hide LittleEndian, Bytes;
    assert START[k..][0] == START[k] && START[k..][1..] == START[k + 1..];
  }

  lemma FourBack(a: int, b: int, c: int, d: int)
    requires 0 <= a < 0x100 && 0 <= b < 0x100 && 0 <= c < 0x100 && 0 <= d < 0x100
    ensures
      var x := a + 0x100 * b + 0x1_0000 * c + 0x100_0000 * d;
      x % 0x100 == a && x / 0x100 % 0x100 == b && x / 0x1_0000 % 0x100 == c && x / 0x100_0000 % 0x100 == d
  {
    Division(a + 0x100 * b + 0x1_0000 * c + 0x100_0000 * d, 0x100, b + 0x100 * c + 0x1_0000 * d, a);
    Division(b + 0x100 * c + 0x1_0000 * d, 0x100, c + 0x100 * d, b);
    Division(a + 0x100 * b + 0x1_0000 * c + 0x100_0000 * d, 0x1_0000, c + 0x100 * d, a + 0x100 * b);
    Division(c + 0x100 * d, 0x100, d, c);
    Division(a + 0x100 * b + 0x1_0000 * c + 0x100_0000 * d, 0x100_0000, d, a + 0x100 * b + 0x1_0000 * c);
    Division(d, 0x100, 0, d);
  }

  lemma BytesStep(ws: seq<Word>)
    requires ws != []
    ensures Bytes(ws) == LittleEndian(ws[0], 4) + Bytes(ws[1..])
  {
    hide LittleEndian;
  }

  // ------------------------------------------------------------- the counting

  function Sum(sizes: seq<nat>): nat {
    if sizes == [] then 0 else Sum(sizes[..|sizes| - 1]) + sizes[|sizes| - 1]
  }

  /** The bytes that were counted: each piece's length cut to 32 bits. */
  function Counted(sizes: seq<nat>): nat {
    if sizes == [] then 0 else Counted(sizes[..|sizes| - 1]) + sizes[|sizes| - 1] % WORD
  }

  /** What is hashed in the end: padding for the true length, the counted length in bits. */
  function Hashed(m: seq<Byte>, counted: nat): seq<Byte> {
    m + [0x80] + Zeros((55 - |m|) % 64) + LittleEndian(8 * counted % (WORD * WORD), 8)
  }

  /** No piece was 4 GB or longer. */
  predicate AllShort(sizes: seq<nat>) {
    forall i | 0 <= i < |sizes| :: sizes[i] < WORD
  }

  lemma {:induction false} CountedSum(sizes: seq<nat>)
    ensures Counted(sizes) <= Sum(sizes) && Counted(sizes) % 64 == Sum(sizes) % 64
    ensures Counted(sizes) == Sum(sizes) <==> AllShort(sizes)
  {
    if sizes != [] {
      var (front, last) := (sizes[..|sizes| - 1], sizes[|sizes| - 1]);
      CountedSum(front);
      CutTo32(last);
      SameLowBits(Counted(front), Sum(front), last % WORD, last);
      hide Counted, Sum;
      assert AllShort(sizes) <==> AllShort(front) && last < WORD;
    }
  }

  lemma SameLowBits(a: int, b: int, c: int, d: int)
    requires a % 64 == b % 64 && c % 64 == d % 64
    ensures (a + c) % 64 == (b + d) % 64
  {
  }

  lemma CutTo32(n: nat)
    ensures n % WORD <= n && n % WORD % 64 == n % 64
    ensures n % WORD == n <==> n < WORD
  {
    assert n == n / WORD * WORD + n % WORD;
    assert n / WORD * WORD == 64 * (n / WORD * 0x400_0000);
  }

  /** Below 2^61 bytes, what is hashed is the padded message of the standard exactly
      when no piece was 4 GB or longer. */
  lemma HashedIsPadded(m: seq<Byte>, sizes: seq<nat>)
    requires |m| == Sum(sizes) && 8 * |m| < WORD * WORD
    ensures Hashed(m, Counted(sizes)) == Padded(m) <==> AllShort(sizes)
  {
    CountedSum(sizes);
    var (x, y) := (8 * Counted(sizes), 8 * |m|);
    var front := m + [0x80] + Zeros((55 - |m|) % 64);
    assert Padded(m) == Hashed(m, |m|);
    hide LittleEndian, Sum, Counted, Zeros, Hashed, Padded;
    HashedEnd(m, Counted(sizes));
    HashedEnd(m, |m|);
    if x != y {
      EightBytes();
      NumberBack(x, 8, WORD * WORD);
      NumberBack(y, 8, WORD * WORD);
      Tail(front, LittleEndian(x, 8));
      Tail(front, LittleEndian(y, 8));
    }
  }

  lemma HashedEnd(m: seq<Byte>, counted: nat)
    requires 8 * counted < WORD * WORD
    ensures Hashed(m, counted) == m + [0x80] + Zeros((55 - |m|) % 64) + LittleEndian(8 * counted, 8)
  {
    hide LittleEndian, Zeros;
    Division(8 * counted, WORD * WORD, 0, 8 * counted);
  }

  lemma Tail(front: seq<Byte>, back: seq<Byte>)
    ensures (front + back)[|front|..] == back
  {
  }

  // --------------------------------------------------------------- the context

  method EncodeWord(output: array<Byte>, j: nat, w: Word)
    requires j + 4 <= output.Length
    modifies output
    ensures output[..j + 4] == old(output[..j]) + LittleEndian(w, 4)
  {
    LittleEndianFour(w);
    hide LittleEndian;
    output[j] := w % 0x100;
    output[j + 1] := w / 0x100 % 0x100;
    output[j + 2] := w / 0x1_0000 % 0x100;
    output[j + 3] := w / 0x100_0000 % 0x100;
    assert output[j..j + 4] == LittleEndian(w, 4);
    assert output[..j] == old(output[..j]);
    assert output[..j + 4] == output[..j] + output[j..j + 4];
  }

  /** Writes words into bytes, lowest byte first. */
  method Encode(output: array<Byte>, input: array<Word>, len: nat)
    requires len % 4 == 0 && len <= output.Length && len / 4 <= input.Length
    modifies output
    ensures output[..len] == Bytes(input[..len / 4])
  {
    hide LittleEndian, Bytes;
    NoBytes(input[..0]);
    var i, j := 0, 0;
    while j < len
      invariant j == 4 * i && j <= len
      invariant output[..j] == Bytes(input[..i])
    {
      EncodeWord(output, j, input[i]);
      BytesSnoc(input[..i], input[i]);
      assert input[..i + 1] == input[..i] + [input[i]];
      i, j := i + 1, j + 4;
    }
  }

  /** Reads words out of bytes, lowest byte first. */
  method Decode(output: array<Word>, input: seq<Byte>, len: nat)
    requires len % 4 == 0 && len <= |input| && len / 4 <= output.Length
    modifies output
    ensures output[..len / 4] == Words4(input[..len])
    ensures output[len / 4..] == old(output[len / 4..])
  {
    hide Number, Words4;
    assert input[..0] == [];
    NoWords();
    var i, j := 0, 0;
    while j < len
      invariant j == 4 * i && j <= len
      invariant output[..i] == Words4(input[..j])
      invariant forall k | len / 4 <= k < output.Length :: output[k] == old(output[k])
    {
      NumberFour(input[j..j + 4]);
      output[i] := Shifted(input[j], input[j + 1], input[j + 2], input[j + 3]);
      WordsSnoc(input[..j], input[j..j + 4]);
      assert input[..j + 4] == input[..j] + input[j..j + 4];
      assert output[..i + 1] == output[..i] + [output[i]];
      i, j := i + 1, j + 4;
    }
  }

  /** Words that were encoded are decoded again. */
  method EncodeDecode(output: array<Byte>, input: array<Word>, len: nat, again: array<Word>)
    requires len % 4 == 0 && len <= output.Length && len / 4 <= input.Length && len / 4 <= again.Length
    requires input != again
    modifies output, again
    ensures again[..len / 4] == input[..len / 4]
  {
    Encode(output, input, len);
    Decode(again, output[..len], len);
    assert output[..len][..len] == output[..len];
    WordsBack(input[..len / 4]);
  }

  lemma NoWords()
    ensures Words4([]) == []
  {
  }

  function Shifted(a: int, b: int, c: int, d: int): int {
    a + 0x100 * b + 0x1_0000 * c + 0x100_0000 * d
  }

  lemma NumberFour(bs: seq<Byte>)
    requires |bs| == 4
    ensures Number(bs) == Shifted(bs[0], bs[1], bs[2], bs[3])
  {
    assert bs[1..][1..] == bs[2..] && bs[2..][1..] == bs[3..] && bs[3..][1..] == [];
    assert Number(bs[3..]) == bs[3] + 0x100 * Number([]);
    assert Number(bs[2..]) == bs[2] + 0x100 * Number(bs[3..]);
    assert Number(bs[1..]) == bs[1] + 0x100 * Number(bs[2..]);
  }

  lemma {:induction false} WordsSnoc(bs: seq<Byte>, w: seq<Byte>)
    requires |bs| % 4 == 0 && |w| == 4
    ensures Words4(bs + w) == Words4(bs) + [Number(w)]
  {
    hide Number;
    if bs == [] {
      assert bs + w == w && w[..4] == w && w[4..] == [];
    } else {
      WordsSnoc(bs[4..], w);
      assert (bs + w)[..4] == bs[..4] && (bs + w)[4..] == bs[4..] + w;
    }
  }

  lemma NoBytes(ws: seq<Word>)
    requires ws == []
    ensures Bytes(ws) == []
  {
  }

  lemma {:induction false} BytesSnoc(ws: seq<Word>, w: Word)
    ensures Bytes(ws + [w]) == Bytes(ws) + LittleEndian(w, 4)
  {
    hide LittleEndian;
    if ws == [] {
      assert [w][1..] == [];
    } else {
      BytesSnoc(ws[1..], w);
      assert (ws + [w])[0] == ws[0] && (ws + [w])[1..] == ws[1..] + [w];
    }
  }

  /** Adding 8 * len to a two-word number, word by word with a carry. */
  lemma AddBits(low: Word, high: Word, len: Word)
    ensures
      var (shifted, top) := (len * 8 % WORD, len / 0x2000_0000);
      var low' := (low + shifted) % WORD;
      var high' := if low' < shifted then (high + 1) % WORD else high;
      low' + WORD * ((high' + top) % WORD) == (low + WORD * high + 8 * len) % (WORD * WORD)
  {
    var (shifted, top) := (len * 8 % WORD, len / 0x2000_0000);
    ShiftedOut(len);
    var low' := (low + shifted) % WORD;
    var carry := Carry(low, shifted);
    Wrapped(high, carry, top);
    TwoDigits(low', high + carry + top);
  }

  lemma ShiftedOut(len: Word)
    ensures 8 * len == len * 8 % WORD + WORD * (len / 0x2000_0000)
  {
  }

  lemma Carry(a: Word, b: Word) returns (carry: int)
    ensures carry == if (a + b) % WORD < b then 1 else 0
    ensures a + b == (a + b) % WORD + WORD * carry
  {
    carry := if a + b < WORD then 0 else 1;
    Division(a + b, WORD, carry, a + b - WORD * carry);
  }

  lemma Wrapped(high: Word, carry: nat, top: nat)
    requires carry <= 1
    ensures ((if carry == 1 then (high + 1) % WORD else high) + top) % WORD == (high + carry + top) % WORD
  {
    AddModulo(high + carry, top, WORD);
  }

  lemma TwoDigits(low: Word, high: nat)
    ensures (low + WORD * high) % (WORD * WORD) == low + WORD * (high % WORD)
  {
    var (q, r) := (high / WORD, high % WORD);
    assert low + WORD * high == WORD * WORD * q + (low + WORD * r);
  }

  /** The low word alone tells how far the buffer is filled. */
  lemma BufferIndex(low: Word, high: Word, counted: nat)
    requires low + WORD * high == 8 * counted % (WORD * WORD)
    ensures low / 8 % 64 == counted % 64
  {
    var q := 8 * counted / (WORD * WORD);
    assert 8 * counted == WORD * WORD * q + low + WORD * high;
    var units := 0x80_0000 * (WORD * q + high);
    var d := counted - 64 * units;
    assert low == 8 * d && low / 8 == d;
    assert (d + 64 * units) % 64 == d % 64;
  }

  lemma CountedSnoc(sizes: seq<nat>, n: nat)
    ensures Counted(sizes + [n]) == Counted(sizes) + n % WORD && Sum(sizes + [n]) == Sum(sizes) + n
  {
    assert (sizes + [n])[..|sizes|] == sizes;
  }

  lemma CountedNone()
    ensures Counted([]) == 0 && Sum([]) == 0
  {
  }

  lemma AddModulo(a: nat, b: nat, m: nat)
    requires m > 0
    ensures (a % m + b) % m == (a + b) % m
  {
    var (p, q, r) := (a / m, (a % m + b) / m, (a % m + b) % m);
    assert a == m * p + a % m && a % m + b == m * q + r;
    Distribute(m, p, q);
    Division(a + b, m, p + q, r);
  }

  const PADDING: seq<Byte> := [0x80] + Zeros(63)

  lemma PadLength(length: nat, padLen: nat)
    requires padLen == if length % 64 < 56 then 56 - length % 64 else 120 - length % 64
    ensures 0 < padLen <= 64 && padLen == 1 + (55 - length) % 64
  {
  }

  class Md5Context {
    const transform: Transform
    const state: array<Word>
    const count: array<Word>
    const buffer: array<Byte>

    /** Everything fed in since the start, and the lengths of the pieces. */
    ghost var message: seq<Byte>
    ghost var sizes: seq<nat>

    ghost predicate Shaped() {
      state.Length == 4 && count.Length == 2 && buffer.Length == 64 && state != count
    }

    function Bits(): int
      requires Shaped()
      reads count
    {
      count[0] + WORD * count[1]
    }

    ghost predicate Valid()
      reads this, state, count, buffer
    {
      && Shaped()
      && state[..] == Fold(transform, START, message)
      && buffer[..|message| % 64] == Rest(message)
      && Bits() == 8 * Counted(sizes) % (WORD * WORD)
      && |message| == Sum(sizes)
    }

    constructor (transform: Transform)
      ensures Shaped() && this.transform == transform
      ensures fresh(state) && fresh(count) && fresh(buffer)
    {
      this.transform := transform;
      state, count, buffer := new Word[4], new Word[2], new Byte[64];
    }

    /** Begins a new message. */
    method Md5Init()
      requires Shaped()
      modifies this, state, count
      ensures Valid() && message == [] && sizes == []
    {
      hide Fold, Rest, Counted, Sum;
      count[0], count[1] := 0, 0;
      LoadStart();
      FoldNone(transform, START, []);
      CountedNone();
      message, sizes := [], [];
    }

    method LoadStart()
      requires Shaped()
      modifies state
      ensures state[..] == START
    {
      state[0], state[1], state[2], state[3] := 0x67452301, 0xefcdab89, 0x98badcfe, 0x10325476;
    }

    method Md5Transform(block: Chunk)
      requires Shaped()
      modifies state
      ensures state[..] == transform(old(state[..]), block)
    {
      var mixed := transform(state[..], block);
      state[0], state[1], state[2], state[3] := mixed[0], mixed[1], mixed[2], mixed[3];
      assert state[..] == mixed;
    }

    /** The bit count grows by eight times the length, as far as that has 32 bits. */
    method CountBits(inputLen: nat)
      requires Shaped()
      modifies count
      ensures Bits() == (old(Bits()) + 8 * (inputLen % WORD)) % (WORD * WORD)
    {
      var len := inputLen % WORD;
      var shifted := len * 8 % WORD;
      AddBits(count[0], count[1], len);
      count[0] := (count[0] + shifted) % WORD;
      if count[0] < shifted { count[1] := (count[1] + 1) % WORD; }
      count[1] := (count[1] + len / 0x2000_0000) % WORD;
    }

    /** Copies bytes into the buffer. */
    method CopyIn(index: nat, bytes: seq<Byte>)
      requires Shaped() && index + |bytes| <= 64
      modifies buffer
      ensures buffer[..index + |bytes|] == old(buffer[..index]) + bytes
    {
      forall k | 0 <= k < |bytes| { buffer[index + k] := bytes[k]; }
    }

    /** Starts a piece: the position in the buffer, with the bits counted. */
    method Enter(inputLen: nat) returns (index: nat)
      requires Valid()
      modifies count
      ensures index == |message| % 64
      ensures Bits() == 8 * Counted(sizes + [inputLen]) % (WORD * WORD)
    {
      index := count[0] / 8 % 64;
      CountedSum(sizes);
      BufferIndex(count[0], count[1], Counted(sizes));
      CountedSnoc(sizes, inputLen);
      hide Counted, Sum, Fold;
      CountBits(inputLen);
      AddModulo(8 * Counted(sizes), 8 * (inputLen % WORD), WORD * WORD);
    }

    /** Works through all complete blocks of the buffer and the input behind it. */
    method Consume(index: nat, input: seq<Byte>) returns (index': nat, i: nat)
      requires Shaped() && index < 64
      modifies state, buffer
      ensures index' < 64 && i <= |input|
      ensures state[..] == Fold(transform, old(state[..]), old(buffer[..index]) + input)
      ensures buffer[..index'] + input[i..] == Rest(old(buffer[..index]) + input)
    {
      hide Fold, Rest;
      ghost var (all, before) := (buffer[..index] + input, state[..]);
      var partLen := 64 - index;
      if |input| < partLen {
        FoldNone(transform, before, all);
        return index, 0;
      }
      CopyIn(index, input[..partLen]);
      assert buffer[..] == all[..64] && input[partLen..] == all[64..];
      FoldOnce(transform, before, all);
      Md5Transform(buffer[..]);
      i := partLen;
      while i + 63 < |input|
        invariant partLen <= i <= |input| && Shaped()
        invariant Fold(transform, state[..], input[i..]) == Fold(transform, before, all)
        invariant Rest(input[i..]) == Rest(all)
      {
        FoldOnce(transform, state[..], input[i..]);
        assert input[i..][..64] == input[i..i + 64] && input[i..][64..] == input[i + 64..];
        Md5Transform(input[i..i + 64]);
        i := i + 64;
      }
      FoldNone(transform, state[..], input[i..]);
      assert buffer[..0] + input[i..] == input[i..];
      return 0, i;
    }

    /** Takes in one piece of the message, of any length. */
    method Md5Update(input: seq<Byte>)
      requires Valid()
      modifies this, state, count, buffer
      ensures Valid() && message == old(message) + input && sizes == old(sizes) + [|input|]
    {
      hide Counted, Sum, Fold, Rest;
      RestLength(message + input);
      var index := Enter(|input|);
      FoldSplit(transform, START, message, input);
      CountedSnoc(sizes, |input|);
      var index', i := Consume(index, input);
      CopyIn(index', input[i..]);
      message, sizes := message + input, sizes + [|input|];
    }

    /** The bit count in eight bytes. */
    method SaveBits() returns (bits: array<Byte>)
      requires Valid()
      ensures fresh(bits) && bits[..] == LittleEndian(8 * Counted(sizes) % (WORD * WORD), 8)
    {
      hide Counted, Sum, Fold, LittleEndian, Bytes, Rest;
      bits := new Byte[8];
      Encode(bits, count, 8);
      TwoWords(count[0], count[1]);
      assert count[..2] == [count[0], count[1]] && bits[..8] == bits[..];
    }

    /** How much of the padding brings the length to 56 modulo 64. */
    method PaddingNeeded() returns (padLen: nat)
      requires Valid()
      ensures padLen <= |PADDING| && PADDING[..padLen] == [0x80] + Zeros((55 - |message|) % 64)
    {
      CountedSum(sizes);
      BufferIndex(count[0], count[1], Counted(sizes));
      hide Counted, Sum, Fold, Rest;
      var index := count[0] / 8 % 64;
      padLen := if index < 56 then 56 - index else 120 - index;
      PadLength(|message|, padLen);
    }

    /** Appends the padding and the bit count as it was before the padding. */
    method Md5Pad()
      requires Valid()
      modifies this, state, count, buffer
      ensures Valid() && message == Hashed(old(message), Counted(old(sizes)))
    {
      hide Counted, Sum, Fold, LittleEndian, Rest;
      var bits := SaveBits();
      var padLen := PaddingNeeded();
      Md5Update(PADDING[..padLen]);
      Md5Update(bits[..]);
    }

    method Wipe()
      requires Shaped()
      modifies state, count, buffer
      ensures state[..] == [0, 0, 0, 0] && count[..] == [0, 0] && buffer[..] == Zeros(64)
    {
      forall k | 0 <= k < 4 { state[k] := 0; }
      forall k | 0 <= k < 2 { count[k] := 0; }
      forall k | 0 <= k < 64 { buffer[k] := 0; }
    }

    /** The digest; the context is wiped afterwards. */
    method Md5Final(digest: array<Byte>)
      requires Valid() && digest.Length == 16 && digest != buffer
      modifies this, state, count, buffer, digest
      ensures digest[..] == Bytes(Fold(transform, START, Hashed(old(message), Counted(old(sizes)))))
      ensures old(AllShort(sizes)) ==> digest[..] == Digest(transform, old(message))
      ensures state[..] == [0, 0, 0, 0] && count[..] == [0, 0] && buffer[..] == Zeros(64)
    {
      CountedSum(sizes);
      hide Counted, Sum, Fold, LittleEndian, Bytes, Rest;
      Md5Pad();
      Encode(digest, state, 16);
      assert state[..4] == state[..] && digest[..16] == digest[..];
      Wipe();
    }
  }
}
