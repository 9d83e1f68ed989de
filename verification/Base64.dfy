/** Base64: three bytes as four characters and back. */
module Base64Spec {

  type Byte = x: int | 0 <= x < 0x100
  type Sextet = x: int | 0 <= x < 0x40

  // --------------------------------------------------------------------- alphabet

  function Upper(): (r: string) ensures |r| == 26 { "ABCDEFGHIJKLMNOPQRSTUVWXYZ" }
  function Lower(): (r: string) ensures |r| == 26 { "abcdefghijklmnopqrstuvwxyz" }
  function Digits(): (r: string) ensures |r| == 10 { "0123456789" }
  function UpperCodes(): (r: string) ensures |r| == 26 { ">?@ABCDEFGHIJKLMNOPQRSTUVW" }
  function LowerCodes(): (r: string) ensures |r| == 26 { "XYZ[\\]^_`abcdefghijklmnopq" }
  function DigitCodes(): (r: string) ensures |r| == 10 { "rstuvwxyz{" }

  /** The alphabet. */
  function Cb64(): (r: string)
    ensures |r| == 64
  {
    Upper() + Lower() + Digits() + "+/"
  }

  /** For the characters from '+' to 'z': '$' for none, or the value plus 62. */
  function Cd64(): (r: string)
    ensures |r| == 80
  {
    "|$$$}" + DigitCodes() + "$$$$$$$" + UpperCodes() + "$$$$$$" + LowerCodes()
  }

  lemma UpperAt(i: nat)
    requires i < 26
    ensures Upper()[i] as int == 65 + i
  {
  }

  lemma LowerAt(i: nat)
    requires i < 26
    ensures Lower()[i] as int == 97 + i
  {
  }

  lemma DigitAt(i: nat)
    requires i < 10
    ensures Digits()[i] as int == 48 + i && DigitCodes()[i] as int == 114 + i
  {
  }

  lemma UpperCodeAt(i: nat)
    requires i < 26
    ensures UpperCodes()[i] as int == 62 + i
  {
  }

  lemma LowerCodeAt(i: nat)
    requires i < 26
    ensures LowerCodes()[i] as int == 88 + i
  {
  }

  lemma LetterAt(v: Sextet)
    ensures Cb64()[v] as int == if v < 26 then 65 + v else if v < 52 then 71 + v else if v < 62 then v - 4
                                else if v == 62 then 43 else 47
  {
    hide Upper, Lower, Digits;
    if v < 26 {
      UpperAt(v);
    } else if v < 52 {
      LowerAt(v - 26);
    } else if v < 62 {
      DigitAt(v - 52);
    } else {
      assert Cb64()[v] == "+/"[v - 62];
    }
  }

  /** The value of a character plus one, or 0 for a character outside the alphabet. */
  function Value(c: char): int {
    var x := c as int;
    if x < 43 || x > 122 then 0
    else if Cd64()[x - 43] == '$' then 0
    else Cd64()[x - 43] as int - 61
  }

  lemma CodeAt(i: nat)
    requires i < 80
    ensures 5 <= i < 15 ==> Cd64()[i] as int == 109 + i
    ensures 22 <= i < 48 ==> Cd64()[i] as int == 40 + i
    ensures 54 <= i ==> Cd64()[i] as int == 34 + i
    ensures i == 0 ==> Cd64()[i] as int == 124
    ensures i == 4 ==> Cd64()[i] as int == 125
    ensures 1 <= i < 4 || 15 <= i < 22 || 48 <= i < 54 ==> Cd64()[i] == '$'
  {
    hide DigitCodes, UpperCodes, LowerCodes;
    if 5 <= i < 15 {
      DigitAt(i - 5);
    } else if 22 <= i < 48 {
      UpperCodeAt(i - 22);
    } else if 54 <= i {
      LowerCodeAt(i - 54);
    } else if i < 5 {
      assert Cd64()[i] == "|$$$}"[i];
    } else if i < 22 {
      assert Cd64()[i] == "$$$$$$$"[i - 15];
    } else {
      assert Cd64()[i] == "$$$$$$"[i - 48];
    }
  }

  /** Every letter of the alphabet stands for its own position. */
  lemma ValueOfLetter(v: Sextet)
    ensures Value(Cb64()[v]) == v + 1
  {
    LetterAt(v);
    CodeAt(Cb64()[v] as int - 43);
    hide Cb64, Cd64;
  }

  lemma ValueRange(c: char)
    ensures 0 <= Value(c) <= 64
  {
    if 43 <= c as int <= 122 { CodeAt(c as int - 43); }
    hide Cd64;
  }

  lemma PadHasNoValue()
    ensures Value('=') == 0
  {
    CodeAt(18);
    hide Cd64;
  }

  /** The 64 characters of section 4 of RFC 4648, each at its place; 64 for all others. */
  function Place(c: char): (v: int)
    ensures 0 <= v <= 64
  {
    if 'A' <= c <= 'Z' then c as int - 'A' as int
    else if 'a' <= c <= 'z' then c as int - 'a' as int + 26
    else if '0' <= c <= '9' then c as int - '0' as int + 52
    else if c == '+' then 62
    else if c == '/' then 63
    else 64
  }

  lemma LetterPlace(v: Sextet)
    ensures Place(Cb64()[v]) == v
  {
    LetterAt(v);
    hide Cb64;
  }

  /** The decoding table knows just these characters. */
  lemma ValueIsPlace(c: char)
    ensures Value(c) == if Place(c) < 64 then Place(c) + 1 else 0
  {
    if 43 <= c as int <= 122 { CodeAt(c as int - 43); }
    hide Cd64;
  }

  // -------------------------------------------------------------------- encoding

  /** Four characters for up to three bytes; all three places are looked at. */
  function EncodeBlock(x: Byte, y: Byte, z: Byte, len: nat): (r: string)
    ensures |r| == 4
  {
    [Cb64()[x / 4],
     Cb64()[x % 4 * 16 + y / 16],
     if len > 1 then Cb64()[y % 16 * 4 + z / 64] else '=',
     if len > 2 then Cb64()[z % 64] else '=']
  }

  /** The text of `b`, when the second and third place hold `y` and `z` from before. */
  function Text(b: seq<Byte>, y: Byte, z: Byte): string {
    if b == [] then ""
    else if |b| == 1 then EncodeBlock(b[0], y, z, 1)
    else if |b| == 2 then EncodeBlock(b[0], b[1], z, 2)
    else EncodeBlock(b[0], b[1], b[2], 3) + Text(b[3..], b[1], b[2])
  }

  /** Section 4 of RFC 4648: the places without a byte are zero. */
  function Standard(b: seq<Byte>): string {
    if b == [] then ""
    else if |b| == 1 then EncodeBlock(b[0], 0, 0, 1)
    else if |b| == 2 then EncodeBlock(b[0], b[1], 0, 2)
    else EncodeBlock(b[0], b[1], b[2], 3) + Standard(b[3..])
  }

  /** What is left in the places behind the last byte does not show in the text. */
  predicate CleanPad(b: seq<Byte>, y: Byte, z: Byte) {
    && (|b| % 3 == 1 ==> (if |b| == 1 then y else b[|b| - 3]) < 16)
    && (|b| % 3 == 2 ==> (if |b| == 2 then z else b[|b| - 3]) < 64)
  }

  lemma LetterInjective(v: Sextet, w: Sextet)
    requires Cb64()[v] == Cb64()[w]
    ensures v == w
  {
    ValueOfLetter(v);
    ValueOfLetter(w);
    hide Cb64, Value;
  }

  lemma LongText(b: seq<Byte>, y: Byte, z: Byte)
    requires |b| >= 3
    ensures Text(b, y, z) == EncodeBlock(b[0], b[1], b[2], 3) + Text(b[3..], b[1], b[2])
    ensures Standard(b) == EncodeBlock(b[0], b[1], b[2], 3) + Standard(b[3..])
  {
    hide EncodeBlock;
  }

  lemma CleanFurther(b: seq<Byte>, y: Byte, z: Byte)
    requires |b| >= 3
    ensures CleanPad(b, y, z) <==> CleanPad(b[3..], b[1], b[2])
  {
    var rest := b[3..];
    assert |rest| % 3 == |b| % 3;
    if |rest| >= 3 { assert rest[|rest| - 3] == b[|b| - 3]; }
  }

  /** The text is the standard one exactly if the bits left over from before are zero. */
  lemma {:induction false} StandardExactly(b: seq<Byte>, y: Byte, z: Byte)
    ensures Text(b, y, z) == Standard(b) <==> CleanPad(b, y, z)
    decreases |b|
  {
    if |b| == 1 {
      OnePad(b[0], y, z);
    } else if |b| == 2 {
      TwoPad(b[0], b[1], z);
    } else if b != [] {
      hide EncodeBlock, Text, Standard, CleanPad;
      StandardExactly(b[3..], b[1], b[2]);
      LongText(b, y, z);
      CleanFurther(b, y, z);
      SameTail(EncodeBlock(b[0], b[1], b[2], 3), Text(b[3..], b[1], b[2]), Standard(b[3..]));
    }
  }

  lemma SameTail(a: string, x: string, y: string)
    ensures a + x == a + y <==> x == y
  {
    if a + x == a + y {
      assert (a + x)[|a|..] == x && (a + y)[|a|..] == y;
    }
  }

  lemma OnePad(x: Byte, y: Byte, z: Byte)
    ensures EncodeBlock(x, y, z, 1) == EncodeBlock(x, 0, 0, 1) <==> y < 16
  {
    hide Cb64;
    var (p, q) := (EncodeBlock(x, y, z, 1), EncodeBlock(x, 0, 0, 1));
    if p == q {
      assert p[1] == q[1];
      LetterInjective(x % 4 * 16 + y / 16, x % 4 * 16);
    }
  }

  lemma TwoPad(x: Byte, y: Byte, z: Byte)
    ensures EncodeBlock(x, y, z, 2) == EncodeBlock(x, y, 0, 2) <==> z < 64
  {
    hide Cb64;
    var (p, q) := (EncodeBlock(x, y, z, 2), EncodeBlock(x, y, 0, 2));
    if p == q {
      assert p[2] == q[2];
      LetterInjective(y % 16 * 4 + z / 64, y % 16 * 4);
    }
  }

  /** The bits of the characters, read one after the other, are those of the bytes,
      followed by zeros; places without a byte are padded. */
  predicate Spells(t: string, b: seq<Byte>)
    requires |t| == 4 && 1 <= |b| <= 3
  {
    && Place(t[0]) < 64 && Place(t[1]) < 64
    && match |b|
       case 1 => t[2] == '=' && t[3] == '=' && 0x40 * Place(t[0]) + Place(t[1]) == 0x10 * (b[0] as int)
       case 2 => t[3] == '=' && Place(t[2]) < 64 &&
                 0x1000 * Place(t[0]) + 0x40 * Place(t[1]) + Place(t[2]) == 4 * (0x100 * (b[0] as int) + b[1] as int)
       case _ => Place(t[2]) < 64 && Place(t[3]) < 64 &&
                 0x4_0000 * Place(t[0]) + 0x1000 * Place(t[1]) + 0x40 * Place(t[2]) + Place(t[3])
                 == 0x1_0000 * (b[0] as int) + 0x100 * (b[1] as int) + b[2] as int
  }

  lemma BlockSpells(x: Byte, y: Byte, z: Byte)
    ensures Spells(EncodeBlock(x, 0, 0, 1), [x])
    ensures Spells(EncodeBlock(x, y, 0, 2), [x, y])
    ensures Spells(EncodeBlock(x, y, z, 3), [x, y, z])
  {
    LetterPlace(x / 4);
    LetterPlace(x % 4 * 16);
    LetterPlace(x % 4 * 16 + y / 16);
    LetterPlace(y % 16 * 4);
    LetterPlace(y % 16 * 4 + z / 64);
    LetterPlace(z % 64);
    hide Cb64, Place;
  }

  /** The standard text: four characters for every three bytes, and for the last one or
      two, each group spelling its bytes. */
  lemma {:induction false} StandardSpells(b: seq<Byte>, k: nat)
    requires 3 * k < |b|
    ensures |Standard(b)| == (|b| + 2) / 3 * 4
    ensures Spells(Standard(b)[4 * k..4 * k + 4], b[3 * k..if 3 * k + 3 <= |b| then 3 * k + 3 else |b|])
    decreases |b|
  {
    hide EncodeBlock, Spells;
    var (t, m) := (Standard(b), if 3 * k + 3 <= |b| then 3 * k + 3 else |b|);
    if |b| == 1 {
      BlockSpells(b[0], 0, 0);
      assert t[0..4] == t && b[0..1] == [b[0]];
    } else if |b| == 2 {
      BlockSpells(b[0], b[1], 0);
      assert t[0..4] == t && b[0..2] == [b[0], b[1]];
    } else {
      LongText(b, 0, 0);
      StandardLength(b[3..]);
      if k == 0 {
        BlockSpells(b[0], b[1], b[2]);
        assert t[0..4] == EncodeBlock(b[0], b[1], b[2], 3) && b[0..3] == [b[0], b[1], b[2]];
      } else {
        StandardSpells(b[3..], k - 1);
        hide Standard;
        SliceAgain(t, 4, 4 * k, 4 * k + 4);
        SliceAgain(b, 3, 3 * k, m);
        assert t[4..] == Standard(b[3..]);
      }
    }
  }

  lemma SliceAgain<T>(s: seq<T>, from: nat, i: nat, j: nat)
    requires from <= i <= j <= |s|
    ensures s[i..j] == s[from..][i - from..j - from]
  {
  }

  lemma {:induction false} StandardLength(b: seq<Byte>)
    ensures |Standard(b)| == (|b| + 2) / 3 * 4
    decreases |b|
  {
    hide EncodeBlock;
    if |b| >= 3 {
      LongText(b, 0, 0);
      StandardLength(b[3..]);
      hide Standard;
      assert (|b| + 2) / 3 == (|b[3..]| + 2) / 3 + 1;
    }
  }

  // -------------------------------------------------------------------- decoding

  /** The values of the characters that belong to the alphabet, in order. */
  function Values(s: string): seq<Sextet> {
    if s == "" then []
    else (ValueRange(s[0]); if Value(s[0]) > 0 then [Value(s[0]) - 1] else []) + Values(s[1..])
  }

  /** Four values as three bytes. Places that hold no value may hold any byte: what
      they contribute is cut off later. */
  function DecodeBlock(a: Byte, b: Byte, c: Byte, d: Byte): (r: seq<Byte>)
    ensures |r| == 3
  {
    [(a * 4 + b / 16) % 0x100, (b % 16 * 16 + c / 4) % 0x100, (c % 4 * 64 + d) % 0x100]
  }

  /** The bytes of groups of four values; an incomplete group gives one byte less
      than it has values. */
  function Bytes(v: seq<Sextet>): seq<Byte> {
    if v == [] then []
    else if |v| >= 4 then DecodeBlock(v[0], v[1], v[2], v[3]) + Bytes(v[4..])
    else if |v| == 3 then DecodeBlock(v[0], v[1], v[2], 0)[..2]
    else if |v| == 2 then DecodeBlock(v[0], v[1], 0, 0)[..1]
    else []
  }

  lemma ValuesFront(a: string, b: string)
    requires a != "" && Values(a[1..] + b) == Values(a[1..]) + Values(b)
    ensures Values(a + b) == Values(a) + Values(b)
  {
    hide Values, Value;
    var s := a + b;
    ValuesStep(a);
    assert s[0] == a[0] && s[1..] == a[1..] + b;
    ValuesStep(s);
  }

  function Own(c: char): seq<Sextet> {
    ValueRange(c);
    if Value(c) > 0 then [Value(c) - 1] else []
  }

  lemma ValuesStep(s: string)
    requires s != ""
    ensures Values(s) == Own(s[0]) + Values(s[1..])
  {
    hide Value;
  }

  lemma {:induction false} ValuesJoined(a: string, b: string)
    ensures Values(a + b) == Values(a) + Values(b)
  {
    hide Value;
    if a == "" {
      assert a + b == b;
    } else {
      ValuesJoined(a[1..], b);
      ValuesFront(a, b);
    }
  }

  lemma {:induction false} NoiseHasNoValues(noise: string)
    requires forall i | 0 <= i < |noise| :: Value(noise[i]) == 0
    ensures Values(noise) == []
  {
    if noise != "" { NoiseHasNoValues(noise[1..]); }
  }

  /** Characters outside the alphabet may stand anywhere. */
  lemma NoiseIgnored(a: string, noise: string, b: string)
    requires forall i | 0 <= i < |noise| :: Value(noise[i]) == 0
    ensures Bytes(Values(a + noise + b)) == Bytes(Values(a + b))
  {
    ValuesJoined(a + noise, b);
    ValuesJoined(a, noise);
    ValuesJoined(a, b);
    NoiseHasNoValues(noise);
    assert Values(a) + [] == Values(a);
  }

  lemma ValuesCons(c: char, s: string)
    ensures Values([c] + s) == (if Value(c) > 0 then [Value(c) - 1] else []) + Values(s)
  {
    assert ([c] + s)[1..] == s;
  }

  lemma LetterValues(v: Sextet, s: string)
    ensures Values([Cb64()[v]] + s) == [v] + Values(s)
  {
    ValuesCons(Cb64()[v], s);
    ValueOfLetter(v);
  }

  lemma PadValues(s: string)
    ensures Values("=" + s) == Values(s)
  {
    ValuesCons('=', s);
    PadHasNoValue();
    hide Value;
  }

  lemma BlockValues(x: Byte, y: Byte, z: Byte, len: nat, s: string)
    requires 1 <= len <= 3
    ensures
      var v := [x / 4, x % 4 * 16 + y / 16, y % 16 * 4 + z / 64, z % 64];
      Values(EncodeBlock(x, y, z, len) + s) == v[..len + 1] + Values(s)
  {
    hide Values, Value, Cb64;
    var (v0, v1, v2, v3) := (x / 4, x % 4 * 16 + y / 16, y % 16 * 4 + z / 64, z % 64);
    var d := if len > 2 then [Cb64()[v3]] else "=";
    var c := if len > 1 then [Cb64()[v2]] else "=";
    if len > 2 { LetterValues(v3, s); } else { PadValues(s); }
    if len > 1 { LetterValues(v2, d + s); } else { PadValues(d + s); }
    LetterValues(v1, c + (d + s));
    LetterValues(v0, [Cb64()[v1]] + (c + (d + s)));
    assert EncodeBlock(x, y, z, len) + s == [Cb64()[v0]] + ([Cb64()[v1]] + (c + (d + s)));
  }

  lemma Packed16(high: int, low: int)
    requires 0 <= low < 16
    ensures (high * 16 + low) / 16 == high && (high * 16 + low) % 16 == low
  {
  }

  lemma Packed4(high: int, low: int)
    requires 0 <= low < 4
    ensures (high * 4 + low) / 4 == high && (high * 4 + low) % 4 == low
  {
  }

  lemma BlockBack(x: Byte, y: Byte, z: Byte)
    ensures DecodeBlock(x / 4, x % 4 * 16 + y / 16, y % 16 * 4 + z / 64, z % 64) == [x, y, z]
    ensures DecodeBlock(x / 4, x % 4 * 16 + y / 16, y % 16 * 4 + z / 64, 0)[..2] == [x, y]
    ensures DecodeBlock(x / 4, x % 4 * 16 + y / 16, 0, 0)[..1] == [x]
  {
    Repacked(x / 4, x % 4, y / 16, y % 16, z / 64, z % 64);
    Repacked(x / 4, x % 4, y / 16, 0, 0, 0);
    hide DecodeBlock;
    var v := DecodeBlock(x / 4, x % 4 * 16 + y / 16, y % 16 * 4 + z / 64, 0);
    SameFront(x / 4, x % 4 * 16 + y / 16, y % 16 * 4 + z / 64, 0, z % 64);
    assert v[..2] == [x, y];
  }

  lemma SameFront(a: Byte, b: Byte, c: Byte, d: Byte, e: Byte)
    ensures DecodeBlock(a, b, c, d)[..2] == DecodeBlock(a, b, c, e)[..2]
  {
  }

  /** Six pieces of two, four and six bits: cut one way, joined the other way. */
  lemma Repacked(p: int, q: int, r: int, s: int, t: int, u: int)
    requires 0 <= p < 64 && 0 <= q < 4 && 0 <= r < 16 && 0 <= s < 16 && 0 <= t < 4 && 0 <= u < 64
    ensures DecodeBlock(p, q * 16 + r, s * 4 + t, u) == [p * 4 + q, r * 16 + s, t * 64 + u]
  {
    Packed16(q, r);
    Packed4(s, t);
  }

  /** Every byte string comes back, whatever the unused places held. */
  lemma {:induction false} RoundTrip(b: seq<Byte>, y: Byte, z: Byte)
    ensures Bytes(Values(Text(b, y, z))) == b
    decreases |b|
  {
    hide EncodeBlock, DecodeBlock, Values;
    EmptyValues();
    if |b| == 1 {
      BlockValues(b[0], y, z, 1, "");
      BlockBack(b[0], y, z);
      assert EncodeBlock(b[0], y, z, 1) + "" == Text(b, y, z);
    } else if |b| == 2 {
      BlockValues(b[0], b[1], z, 2, "");
      BlockBack(b[0], b[1], z);
      assert EncodeBlock(b[0], b[1], z, 2) + "" == Text(b, y, z);
    } else if b != [] {
      var rest := Text(b[3..], b[1], b[2]);
      BlockValues(b[0], b[1], b[2], 3, rest);
      BlockBack(b[0], b[1], b[2]);
      RoundTrip(b[3..], b[1], b[2]);
      FourMore(b[0], b[1], b[2], Values(rest));
      assert b == [b[0], b[1], b[2]] + b[3..];
    }
  }

  lemma EmptyValues()
    ensures Values("") == []
  {
  }

  lemma FourMore(x: Byte, y: Byte, z: Byte, rest: seq<Sextet>)
    ensures
      var v := [x / 4, x % 4 * 16 + y / 16, y % 16 * 4 + z / 64, z % 64];
      v[..4] == v && Bytes(v + rest) == DecodeBlock(v[0], v[1], v[2], v[3]) + Bytes(rest)
  {
    var v := [x / 4, x % 4 * 16 + y / 16, y % 16 * 4 + z / 64, z % 64];
    assert (v + rest)[4..] == rest;
  }
}

module Base64 {
  import opened Base64Spec

  /** Three places are filled from the input as far as it goes. Those in `scratch` that
      get no byte keep what they had. */
  method ToBase64(bin: seq<Byte>, scratch: array<Byte>) returns (res: string)
    requires scratch.Length == 3
    modifies scratch
    ensures res == Text(bin, old(scratch[1]), old(scratch[2]))
  {
    hide Text, EncodeBlock;
    res := "";
    var p := 0;
    assert bin[0..] == bin && "" + Text(bin, scratch[1], scratch[2]) == Text(bin, scratch[1], scratch[2]);
    while p < |bin|
      invariant 0 <= p <= |bin|
      invariant res + Text(bin[p..], scratch[1], scratch[2]) == Text(bin, old(scratch[1]), old(scratch[2]))
    {
      ghost var (rest, y, z) := (bin[p..], scratch[1], scratch[2]);
      TextStep(rest, y, z);
      ghost var start := p;
      var len := 0;
      for i := 0 to 3
        invariant start <= p <= |bin| && len == p - start && (p < |bin| ==> len == i) && len <= i
        invariant i > 0 ==> len > 0
        invariant scratch[0] == (if len > 0 then bin[start] else scratch[0])
        invariant scratch[1] == (if len > 1 then bin[start + 1] else y)
        invariant scratch[2] == (if len > 2 then bin[start + 2] else z)
      {
        if p < |bin| {
          scratch[i] := bin[p];
          p, len := p + 1, len + 1;
        }
      }
      ghost var block := EncodeBlock(scratch[0], scratch[1], scratch[2], len);
      assert rest[len..] == bin[p..];
      assert res + (block + Text(bin[p..], scratch[1], scratch[2])) == (res + block) + Text(bin[p..], scratch[1], scratch[2]);
      if len > 0 { res := res + EncodeBlock(scratch[0], scratch[1], scratch[2], len); }
    }
    NoText(scratch[1], scratch[2]);
    assert bin[p..] == [];
  }

  lemma NoText(y: Byte, z: Byte)
    ensures Text([], y, z) == ""
  {
  }

  /** One round of the outer loop. */
  lemma TextStep(b: seq<Byte>, y: Byte, z: Byte)
    requires b != []
    ensures
      var len := if |b| < 3 then |b| else 3;
      var (y', z') := (if len > 1 then b[1] else y, if len > 2 then b[2] else z);
      Text(b, y, z) == EncodeBlock(b[0], y', z', len) + Text(b[len..], y', z')
  {
    hide EncodeBlock;
    if |b| < 3 { assert b[|b|..] == []; }
  }

  lemma ValuesAt(str: string, p: nat)
    requires p < |str|
    ensures Values(str[p..]) == (if Value(str[p]) > 0 then [Value(str[p]) - 1] else []) + Values(str[p + 1..])
  {
    hide Value;
    assert [str[p]] + str[p + 1..] == str[p..];
    ValuesCons(str[p], str[p + 1..]);
  }

  /** The next character of the alphabet, as its value plus one. */
  method NextValue(str: string, start: nat) returns (v: int, p: nat)
    requires start < |str|
    ensures start < p <= |str| && 0 <= v <= 64
    ensures v == 0 ==> p == |str|
    ensures Values(str[start..]) == (if v > 0 then [v - 1] else []) + Values(str[p..])
  {
    hide Values, Value;
    p, v := start, 0;
    while p < |str| && v == 0
      invariant start <= p <= |str| && 0 <= v <= 64 && (v > 0 ==> p > start)
      invariant Values(str[start..]) == (if v > 0 then [v - 1] else []) + Values(str[p..])
      decreases |str| - p
    {
      ValuesAt(str, p);
      ValueRange(str[p]);
      v := Value(str[p]);
      p := p + 1;
    }
  }

  /** Up to four values into the places of a group. */
  method FillGroup(str: string, start: nat, scratch: array<Byte>) returns (len: nat, p: nat)
    requires start < |str| && scratch.Length == 4
    modifies scratch
    ensures len <= 4 && start < p <= |str| && (len < 4 ==> p == |str|)
    ensures forall k | 0 <= k < len :: 0 <= scratch[k] < 0x40
    ensures Values(str[start..]) == scratch[..len] + Values(str[p..])
  {
    hide Values, Value;
    len, p := 0, start;
    var i := 0;
    while i < 4 && p < |str|
      invariant len <= i <= 4 && start <= p <= |str| && (len < i ==> p == |str|) && (i > 0 ==> p > start)
      invariant forall k | 0 <= k < len :: 0 <= scratch[k] < 0x40
      invariant Values(str[start..]) == scratch[..len] + Values(str[p..])
    {
      ghost var front := scratch[..len];
      var v, q := NextValue(str, p);
      if v > 0 {
        scratch[i] := v - 1;
        len := len + 1;
        assert scratch[..len] == front + [v - 1];
      }
      p := q;
      i := i + 1;
    }
  }

  /** What a group contributes, whatever its unset places hold. */
  lemma BytesStep(s: seq<Byte>, len: nat, rest: seq<Sextet>)
    requires |s| == 4 && len <= 4 && (len < 4 ==> rest == [])
    requires forall k | 0 <= k < len :: s[k] < 0x40
    ensures Bytes(s[..len] + rest) ==
            (if len > 0 then DecodeBlock(s[0], s[1], s[2], s[3])[..len - 1] else []) + Bytes(rest)
  {
    var v := s[..len] + rest;
    if len == 4 {
      assert v[4..] == rest;
    } else {
      assert v == s[..len];
    }
  }

  /** Characters outside the alphabet are skipped. */
  method FromBase64(str: string, scratch: array<Byte>) returns (res: seq<Byte>)
    requires scratch.Length == 4
    modifies scratch
    ensures res == Bytes(Values(str))
  {
    hide Bytes, Values, Value, DecodeBlock;
    res := [];
    var p := 0;
    assert str[0..] == str && [] + Bytes(Values(str)) == Bytes(Values(str));
    while p < |str|
      invariant 0 <= p <= |str|
      invariant res + Bytes(Values(str[p..])) == Bytes(Values(str))
      decreases |str| - p
    {
      ghost var before := res;
      var len, q := FillGroup(str, p, scratch);
      EmptyValues();
      assert str[|str|..] == "";
      BytesStep(scratch[..], len, Values(str[q..]));
      assert scratch[..][..len] == scratch[..len];
      p := q;
      if len > 0 {
        var out := DecodeBlock(scratch[0], scratch[1], scratch[2], scratch[3]);
        assert before + (out[..len - 1] + Bytes(Values(str[p..]))) == (before + out[..len - 1]) + Bytes(Values(str[p..]));
        res := res + out[..len - 1];
      }
    }
    assert str[p..] == "";
    EmptyValues();
    NoBytes();
  }

  lemma NoBytes()
    ensures Bytes([]) == []
  {
  }
}
