/** Addresses as text: dotted IPv4 and compressed IPv6, written and read. */
module InetText {
  import opened Basics

  type Byte = x: int | 0 <= x < 0x100
  type Word = x: int | 0 <= x < 0x1_0000

  // -------------------------------------------------------------------- numbers

  function Digit(n: nat): char
    requires n < 16
  {
    "0123456789abcdef"[n]
  }

  function HexValue(c: char): Option<nat> {
    if '0' <= c <= '9' then Some((c - '0') as int)
    else if 'a' <= c <= 'f' then Some((c - 'a') as int + 10)
    else if 'A' <= c <= 'F' then Some((c - 'A') as int + 10)
    else None
  }

  /** The value of a digit is its place in one of the two tables. */
  lemma HexValueIs(c: char, v: nat)
    ensures HexValue(c) == Some(v) <==> v < 16 && ("0123456789abcdef"[v] == c || "0123456789ABCDEF"[v] == c)
  {
  }

  /** A number in base 10 or 16, in lower case and without leading zeros. */
  function Numeral(n: nat, base: nat): (r: string)
    requires 2 <= base <= 16
    ensures r != ""
  {
    (if n < base then "" else Numeral(n / base, base)) + [Digit(n % base)]
  }

  function Hex(w: Word): string {
    Numeral(w, 16)
  }

  function Decimal(b: Byte): string {
    Numeral(b, 10)
  }

  lemma DigitBack(n: nat)
    requires n < 16
    ensures HexValue(Digit(n)) == Some(n) && (n < 10 <==> '0' <= Digit(n) <= '9')
    ensures n < 10 ==> (Digit(n) - '0') as int == n
  {
  }

  predicate IsDigit(c: char, base: nat) {
    HexValue(c).Some? && HexValue(c).value < base && (base == 10 ==> '0' <= c <= '9')
  }

  function Power(base: nat, k: nat): nat {
    if k == 0 then 1 else base * Power(base, k - 1)
  }

  lemma {:induction false} NumeralChars(n: nat, base: nat, k: nat)
    requires base == 10 || base == 16
    requires k > 0 && n < Power(base, k)
    ensures |Numeral(n, base)| <= k && forall c <- Numeral(n, base) :: IsDigit(c, base)
  {
    DigitBack(n % base);
    assert Power(base, 1) == base * Power(base, 0);
    if n >= base {
      DividedBelow(n, base, Power(base, k - 1));
      NumeralChars(n / base, base, k - 1);
    }
  }

  lemma DividedBelow(n: nat, base: nat, p: nat)
    requires base > 0 && n < base * p
    ensures n / base < p
  {
    if n / base >= p { TimesMore(base, p, n / base); }
  }

  lemma TimesMore(base: nat, p: nat, q: nat)
    requires p <= q
    ensures base * p <= base * q
  {
  }

  lemma HexChars(w: Word)
    ensures 1 <= |Hex(w)| <= 4 && forall c <- Hex(w) :: IsDigit(c, 16)
  {
    assert Power(16, 2) == 256 && Power(16, 4) == 256 * Power(16, 2);
    NumeralChars(w, 16, 4);
  }

  lemma DecimalChars(b: Byte)
    ensures 1 <= |Decimal(b)| <= 3 && forall c <- Decimal(b) :: IsDigit(c, 10)
  {
    assert Power(10, 3) == 1000;
    NumeralChars(b, 10, 3);
  }

  // ----------------------------------------------------------------------- IPv4

  /** The octets, each followed by a dot. */
  function Dots(bs: seq<Byte>): string {
    if bs == [] then "" else Dots(bs[..|bs| - 1]) + Decimal(bs[|bs| - 1]) + "."
  }

  function Dotted(bs: seq<Byte>): string
    requires |bs| == 4
  {
    Dots(bs[..3]) + Decimal(bs[3])
  }

  /** Octets that are complete, the one being read, and whether it has a digit yet. */
  datatype State4 = Reading(done: seq<Byte>, octet: Byte, sawDigit: bool) | Bad4

  function Step4(st: State4, c: char): State4 {
    if st.Bad4? then Bad4
    else if '0' <= c <= '9' then
      var v := st.octet * 10 + (c - '0') as int;
      if (st.sawDigit && st.octet == 0) || v > 255 || (!st.sawDigit && |st.done| >= 4) then Bad4
      else Reading(st.done, v, true)
    else if c == '.' && st.sawDigit && |st.done| < 3 then Reading(st.done + [st.octet], 0, false)
    else Bad4
  }

  function Run4(st: State4, s: string): State4
    decreases |s|
  {
    if s == "" then st else Run4(Step4(st, s[0]), s[1..])
  }

  function Parse4(s: string): (r: Option<seq<Byte>>)
    ensures r.Some? ==> |r.value| == 4
  {
    var st := Run4(Reading([], 0, false), s);
    if st.Reading? && st.sawDigit && |st.done| == 3 then Some(st.done + [st.octet]) else None
  }

  /** The text that leads to a state. */
  function Shown(st: State4): string
    requires st.Reading?
  {
    Dots(st.done) + if st.sawDigit then Decimal(st.octet) else ""
  }

  predicate Sound4(st: State4) {
    st.Reading? ==> |st.done| <= 3 && (!st.sawDigit ==> st.octet == 0)
  }

  lemma DotsSnoc(bs: seq<Byte>, b: Byte)
    ensures Dots(bs + [b]) == Dots(bs) + Decimal(b) + "."
  {
    assert (bs + [b])[..|bs|] == bs;
  }

  /** One more character read is one more character shown. */
  lemma StepShown(st: State4, c: char)
    requires Sound4(st) && Step4(st, c).Reading?
    ensures Sound4(Step4(st, c)) && Shown(Step4(st, c)) == Shown(st) + [c]
  {
    if '0' <= c <= '9' {
      var d := (c - '0') as int;
      DigitBack(d);
      assert Digit(d) == c;
      if st.sawDigit {
        var v := st.octet * 10 + d;
        assert v / 10 == st.octet && v % 10 == d;
        assert Decimal(v) == Decimal(st.octet) + [c];
      } else {
        assert Decimal(d) == "" + [c];
      }
    } else {
      DotsSnoc(st.done, st.octet);
    }
  }

  lemma {:induction false} RunShown(st: State4, s: string)
    requires Sound4(st) && Run4(st, s).Reading?
    ensures st.Reading? && Sound4(Run4(st, s)) && Shown(Run4(st, s)) == Shown(st) + s
    decreases |s|
  {
    if s == "" {
      assert Shown(st) + s == Shown(st);
    } else {
      RunShown(Step4(st, s[0]), s[1..]);
      if st.Reading? { StepShown(st, s[0]); }
      hide Shown, Step4;
      assert [s[0]] + s[1..] == s;
    }
  }

  lemma ReadDigit(st: State4, d: nat, tail: string)
    requires st.Reading? && d < 10 && st.octet * 10 + d < 0x100
    requires if st.sawDigit then st.octet > 0 else |st.done| < 4
    ensures Run4(st, [Digit(d)] + tail) == Run4(Reading(st.done, st.octet * 10 + d, true), tail)
  {
    DigitBack(d);
    hide Digit;
    assert ([Digit(d)] + tail)[1..] == tail;
  }

  lemma {:induction false} ReadOctet(done: seq<Byte>, n: nat, tail: string)
    requires |done| <= 3 && n < 0x100
    ensures Run4(Reading(done, 0, false), Numeral(n, 10) + tail) == Run4(Reading(done, n, true), tail)
    decreases n
  {
    hide Run4, Digit;
    var c := Digit(n % 10);
    if n < 10 {
      assert Numeral(n, 10) == [c];
      ReadDigit(Reading(done, 0, false), n, tail);
    } else {
      ReadOctet(done, n / 10, [c] + tail);
      assert Numeral(n, 10) + tail == Numeral(n / 10, 10) + ([c] + tail);
      ReadDigit(Reading(done, n / 10, true), n % 10, tail);
    }
  }

  lemma ReadDot(done: seq<Byte>, b: Byte, tail: string)
    requires |done| < 3
    ensures Run4(Reading(done, b, true), "." + tail) == Run4(Reading(done + [b], 0, false), tail)
  {
    assert ("." + tail)[1..] == tail;
  }

  lemma {:induction false} ReadDots(bs: seq<Byte>, tail: string)
    requires |bs| <= 3
    ensures Run4(Reading([], 0, false), Dots(bs) + tail) == Run4(Reading(bs, 0, false), tail)
  {
    if bs == [] {
      assert Dots(bs) + tail == tail;
    } else {
      hide *;
      var (front, b) := (bs[..|bs| - 1], bs[|bs| - 1]);
      DotsEnd(bs, tail);
      ReadDots(front, Decimal(b) + ("." + tail));
      ReadNumber(front, b, tail);
      assert front + [b] == bs;
    }
  }

  lemma DotsEnd(bs: seq<Byte>, tail: string)
    requires bs != []
    ensures Dots(bs) + tail == Dots(bs[..|bs| - 1]) + (Decimal(bs[|bs| - 1]) + ("." + tail))
  {
    hide Decimal;
  }

  lemma ReadNumber(done: seq<Byte>, b: Byte, tail: string)
    requires |done| < 3
    ensures Run4(Reading(done, 0, false), Decimal(b) + ("." + tail)) == Run4(Reading(done + [b], 0, false), tail)
  {
    hide Run4;
    ReadOctet(done, b, "." + tail);
    ReadDot(done, b, tail);
  }

  /** A text is read as four octets exactly if it is their dotted form. */
  lemma DottedExactly(s: string, bs: seq<Byte>)
    requires |bs| == 4
    ensures Parse4(s) == Some(bs) <==> s == Dotted(bs)
  {
    var start := Reading([], 0, false);
    if s == Dotted(bs) {
      ReadDots(bs[..3], Decimal(bs[3]));
      ReadOctet(bs[..3], bs[3], "");
      assert Decimal(bs[3]) + "" == Decimal(bs[3]);
      assert bs[..3] + [bs[3]] == bs;
    }
    if Parse4(s) == Some(bs) {
      RunShown(start, s);
      var st := Run4(start, s);
      assert bs[..3] == st.done && Shown(start) + s == s;
    }
  }
}

module Inet6Text {
  import opened Basics
  import opened InetText

  type Words = s: seq<Word> | |s| == 8 witness [0, 0, 0, 0, 0, 0, 0, 0]

  function Pair(v: nat): seq<Byte> {
    [v / 0x100 % 0x100, v % 0x100]
  }

  /** Words as bytes, high byte first. */
  function Bytes(ws: seq<Word>): (r: seq<Byte>)
    ensures |r| == 2 * |ws|
  {
    if ws == [] then [] else Bytes(ws[..|ws| - 1]) + Pair(ws[|ws| - 1])
  }

  // -------------------------------------------------------------- the text form

  /** Groups with colons between them. */
  function Joined(ws: seq<Word>): string {
    if ws == [] then "" else Groups(ws[..|ws| - 1]) + Hex(ws[|ws| - 1])
  }

  /** Groups, each followed by a colon. */
  function Groups(ws: seq<Word>): string {
    if ws == [] then "" else Groups(ws[..|ws| - 1]) + Hex(ws[|ws| - 1]) + ":"
  }

  predicate ZeroRun(w: Words, base: int, len: int) {
    0 <= base && 0 < len && base + len <= 8 && forall k | base <= k < base + len :: w[k] == 0
  }

  /** Section 4.2 of RFC 5952: the longest run of zeros is shortened, the leftmost of
      several, and a single group of zeros never is. */
  ghost predicate Shortened(w: Words, base: int, len: int) {
    if base == -1 then forall b, l | ZeroRun(w, b, l) :: l < 2
    else
      && ZeroRun(w, base, len) && len >= 2
      && forall b, l | ZeroRun(w, b, l) :: l < len || (l == len && base <= b)
  }

  /** Addresses that are written with a dotted part: IPv4-compatible and IPv4-mapped. */
  predicate Embedded(w: Words, base: int, len: int) {
    base == 0 && (len == 6 || (len == 5 && w[5] == 0xffff))
  }

  function Canonical(w: Words, base: int, len: int): string
    requires base == -1 || ZeroRun(w, base, len)
  {
    if base == -1 then Joined(w) else Joined(w[..base]) + "::" + Tail(w, base, len)
  }

  /** What stands behind the double colon. */
  function Tail(w: Words, base: int, len: int): string
    requires ZeroRun(w, base, len)
  {
    if Embedded(w, base, len) then Groups(w[len..6]) + Dotted(Bytes(w[6..])) else Joined(w[base + len..])
  }

  // ------------------------------------------------------------------ the reader

  /** The bytes so far, where the double colon was (or -1), the group being read, its
      number of digits and the text from its start on; or the dotted part has ended
      the text. */
  datatype Scan =
    | Scan(out: seq<Byte>, colon: int, val: nat, seen: nat, tok: string)
    | Ended(out: seq<Byte>, colon: int)
    | Bad

  function Step6(c: char, rest: string, st: Scan): Scan
    requires st.Scan?
  {
    var d := HexValue(c);
    if d.Some? then
      if st.seen + 1 > 4 then Bad else st.(val := st.val * 16 + d.value, seen := st.seen + 1)
    else if c == ':' then
      if st.seen == 0 then
        if st.colon >= 0 then Bad else st.(colon := |st.out|, tok := rest)
      else if |st.out| + 2 > 16 then Bad
      else Scan(st.out + Pair(st.val), st.colon, 0, 0, rest)
    else if c == '.' && |st.out| + 4 <= 16 && Parse4(st.tok).Some? then
      Ended(st.out + Parse4(st.tok).value, st.colon)
    else Bad
  }

  function Run6(s: string, st: Scan): Scan
    decreases |s|
  {
    if s == "" || !st.Scan? then st else Run6(s[1..], Step6(s[0], s[1..], st))
  }

  /** All sixteen bytes, with zeros put in where the double colon was. */
  function Spread(out: seq<Byte>, colon: int): Option<seq<Byte>>
    requires colon <= |out|
  {
    if colon >= 0 then
      if |out| >= 16 then None
      else Some(out[..colon] + seq(16 - |out|, _ => 0) + out[colon..])
    else if |out| == 16 then Some(out)
    else None
  }

  function Finish6(st: Scan): Option<seq<Byte>>
    requires !st.Bad? ==> st.colon <= |st.out|
  {
    if st.Bad? then None
    else if st.Scan? && st.seen > 0 then
      if |st.out| + 2 > 16 then None else Spread(st.out + Pair(st.val), st.colon)
    else Spread(st.out, st.colon)
  }

  function Start6(s: string): Scan {
    Scan([], -1, 0, 0, s)
  }

  predicate ColonInside(st: Scan) {
    !st.Bad? ==> st.colon <= |st.out|
  }

  lemma {:induction false} RunColon(s: string, st: Scan)
    requires ColonInside(st)
    ensures ColonInside(Run6(s, st))
    decreases |s|
  {
    if s != "" && st.Scan? { RunColon(s[1..], Step6(s[0], s[1..], st)); }
  }

  function Parse6(s: string): Option<seq<Byte>> {
    var leading := s != "" && s[0] == ':';
    if leading && !(|s| > 1 && s[1] == ':') then None
    else
      var text := if leading then s[1..] else s;
      RunColon(text, Start6(text));
      Finish6(Run6(text, Start6(text)))
  }

  // ------------------------------------------------------- reading what was written

  lemma RunStep(c: char, tail: string, st: Scan)
    requires st.Scan?
    ensures Run6([c] + tail, st) == Run6(tail, Step6(c, tail, st))
  {
    assert ([c] + tail)[1..] == tail;
  }

  lemma StepDigit(d: nat, tail: string, st: Scan)
    requires d < 16 && st.Scan? && st.seen < 4
    ensures Step6(Digit(d), tail, st) == st.(val := st.val * 16 + d, seen := st.seen + 1)
  {
    DigitBack(d);
    hide Digit, Parse4;
  }

  lemma RunDigit(d: nat, tail: string, st: Scan)
    requires d < 16 && st.Scan? && st.seen < 4
    ensures Run6([Digit(d)] + tail, st) == Run6(tail, st.(val := st.val * 16 + d, seen := st.seen + 1))
  {
    hide Digit, Run6, Step6;
    StepDigit(d, tail, st);
    RunStep(Digit(d), tail, st);
  }

  lemma {:induction false} RunNumeral(n: nat, tail: string, st: Scan)
    requires st.Scan? && st.val == 0 && st.seen == 0 && |Numeral(n, 16)| <= 4
    ensures Run6(Numeral(n, 16) + tail, st) == Run6(tail, st.(val := n, seen := |Numeral(n, 16)|))
    decreases n
  {
    hide Run6, Digit, Step6;
    var c := Digit(n % 16);
    if n < 16 {
      assert Numeral(n, 16) == [c];
      RunDigit(n, tail, st);
    } else {
      assert Numeral(n, 16) == Numeral(n / 16, 16) + [c];
      RunNumeral(n / 16, [c] + tail, st);
      assert Numeral(n, 16) + tail == Numeral(n / 16, 16) + ([c] + tail);
      RunDigit(n % 16, tail, st.(val := n / 16, seen := |Numeral(n / 16, 16)|));
    }
  }

  /** Decimal digits pass for hexadecimal ones until the dot comes. */
  lemma {:induction false} RunDigits(t: string, tail: string, st: Scan) returns (v: nat)
    requires st.Scan? && st.seen + |t| <= 4 && forall c <- t :: HexValue(c).Some?
    ensures Run6(t + tail, st) == Run6(tail, st.(val := v, seen := st.seen + |t|))
    decreases |t|
  {
    v := st.val;
    if t == "" {
      assert t + tail == tail;
    } else {
      hide Run6, HexValue;
      assert t[0] in t && forall c <- t[1..] :: c in t;
      assert t + tail == [t[0]] + (t[1..] + tail);
      RunStep(t[0], t[1..] + tail, st);
      v := RunDigits(t[1..], tail, Step6(t[0], t[1..] + tail, st));
    }
  }

  /** A state between two groups. */
  predicate Between(st: Scan, s: string) {
    st.Scan? && st.val == 0 && st.seen == 0 && st.tok == s
  }

  lemma RunGroup(w: Word, tail: string, st: Scan)
    requires Between(st, Hex(w) + ":" + tail) && |st.out| <= 14
    ensures Run6(Hex(w) + ":" + tail, st) == Run6(tail, Scan(st.out + Pair(w), st.colon, 0, 0, tail))
  {
    HexChars(w);
    hide Run6, Hex, Pair;
    var s := ":" + tail;
    RunHex(w, s, st);
    RunStep(':', tail, st.(val := w, seen := |Hex(w)|));
    assert Hex(w) + ":" + tail == Hex(w) + s;
  }

  lemma RunHex(w: Word, tail: string, st: Scan)
    requires st.Scan? && st.val == 0 && st.seen == 0
    ensures 1 <= |Hex(w)| <= 4
    ensures Run6(Hex(w) + tail, st) == Run6(tail, st.(val := w, seen := |Hex(w)|))
  {
    HexChars(w);
    hide Run6;
    RunNumeral(w, tail, st);
  }

  lemma {:induction false} RunGroups(ws: seq<Word>, tail: string, st: Scan)
    requires Between(st, Groups(ws) + tail) && |st.out| + 2 * |ws| <= 16
    ensures Run6(Groups(ws) + tail, st) == Run6(tail, Scan(st.out + Bytes(ws), st.colon, 0, 0, tail))
    decreases |ws|
  {
    hide Run6, Hex, Pair;
    if ws == [] {
      assert st.out + Bytes(ws) == st.out && Groups(ws) + tail == tail;
    } else {
      var (front, w) := (ws[..|ws| - 1], ws[|ws| - 1]);
      var more := Hex(w) + ":" + tail;
      assert Groups(ws) + tail == Groups(front) + more;
      RunGroups(front, more, st);
      RunGroup(w, tail, Scan(st.out + Bytes(front), st.colon, 0, 0, more));
      assert st.out + Bytes(front) + Pair(w) == st.out + Bytes(ws);
    }
  }

  lemma RunEnd(st: Scan)
    ensures Run6("", st) == st
  {
  }

  lemma RunLast(w: Word, st: Scan)
    requires Between(st, Hex(w)) && st.colon <= |st.out| <= 14
    ensures var r := Run6(Hex(w), st); ColonInside(r) && Finish6(r) == Spread(st.out + Pair(w), st.colon)
  {
    hide Run6, Hex, Pair;
    assert Hex(w) + "" == Hex(w);
    RunHex(w, "", st);
    RunEnd(st.(val := w, seen := |Hex(w)|));
  }

  lemma RunNone(st: Scan)
    requires Between(st, "") && st.colon <= |st.out|
    ensures ColonInside(Run6("", st)) && Finish6(Run6("", st)) == Spread(st.out, st.colon)
  {
    RunEnd(st);
  }

  lemma RunSome(front: seq<Word>, w: Word, st: Scan)
    requires Between(st, Groups(front) + Hex(w)) && st.colon <= |st.out| && |st.out| + 2 * |front| <= 14
    ensures var r := Run6(Groups(front) + Hex(w), st);
            ColonInside(r) && Finish6(r) == Spread(st.out + Bytes(front) + Pair(w), st.colon)
  {
    hide Run6, Hex, Pair, Groups, Bytes, Finish6, Spread;
    RunGroups(front, Hex(w), st);
    RunLast(w, Scan(st.out + Bytes(front), st.colon, 0, 0, Hex(w)));
  }

  lemma RunJoined(ws: seq<Word>, st: Scan)
    requires Between(st, Joined(ws)) && st.colon <= |st.out| && |st.out| + 2 * |ws| <= 16
    ensures var r := Run6(Joined(ws), st);
            ColonInside(r) && Finish6(r) == Spread(st.out + Bytes(ws), st.colon)
  {
    hide Run6, Hex, Pair, Groups, Finish6, Spread;
    if ws == [] {
      assert st.out + Bytes(ws) == st.out;
      RunNone(st);
    } else {
      JoinedSplit(ws);
      hide Joined, Bytes;
      var (front, w) := (ws[..|ws| - 1], ws[|ws| - 1]);
      RunSome(front, w, st);
      assert st.out + Bytes(front) + Pair(w) == st.out + Bytes(ws);
    }
  }

  lemma JoinedSplit(ws: seq<Word>)
    requires ws != []
    ensures Joined(ws) == Groups(ws[..|ws| - 1]) + Hex(ws[|ws| - 1])
    ensures Bytes(ws) == Bytes(ws[..|ws| - 1]) + Pair(ws[|ws| - 1])
  {
  }

  lemma RunDotted(bs: seq<Byte>, st: Scan)
    requires |bs| == 4 && Between(st, Dotted(bs)) && |st.out| <= 12
    ensures Run6(Dotted(bs), st) == Ended(st.out + bs, st.colon)
  {
    DecimalChars(bs[0]);
    DottedExactly(Dotted(bs), bs);
    var tail := DottedFront(bs);
    hide Run6, Decimal, Dotted, Parse4, Dots;
    var v := RunDigits(Decimal(bs[0]), "." + tail, st);
    var mid := st.(val := v, seen := |Decimal(bs[0])|);
    RunStep('.', tail, mid);
    assert HexValue('.').None?;
    EndedStays(tail, Ended(st.out + bs, st.colon));
  }

  lemma EndedStays(s: string, st: Scan)
    ensures !st.Scan? ==> Run6(s, st) == st
  {
  }

  lemma FinishCases(st: Scan)
    requires ColonInside(st)
    ensures st.Bad? ==> Finish6(st) == None
    ensures st.Ended? ==> Finish6(st) == Spread(st.out, st.colon)
    ensures st.Scan? && st.seen == 0 ==> Finish6(st) == Spread(st.out, st.colon)
    ensures st.Scan? && st.seen > 0 && |st.out| > 14 ==> Finish6(st) == None
    ensures st.Scan? && st.seen > 0 && |st.out| <= 14 ==> Finish6(st) == Spread(st.out + Pair(st.val), st.colon)
  {
    hide Spread, Pair;
  }

  lemma DottedFront(bs: seq<Byte>) returns (tail: string)
    requires |bs| == 4
    ensures Dotted(bs) == Decimal(bs[0]) + ("." + tail)
  {
    hide Decimal;
    assert bs[..3][..2] == bs[..2] && bs[..2][..1] == bs[..1] && bs[..1][..0] == [];
    assert Dots(bs[..1]) == Dots([]) + Decimal(bs[0]) + "." == Decimal(bs[0]) + ".";
    assert Dots(bs[..2]) == Dots(bs[..1]) + Decimal(bs[1]) + ".";
    assert Dots(bs[..3]) == Dots(bs[..2]) + Decimal(bs[2]) + ".";
    tail := Decimal(bs[1]) + "." + Decimal(bs[2]) + "." + Decimal(bs[3]);
    assert Decimal(bs[0]) + ("." + tail) == Dotted(bs);
  }

  lemma {:induction false} BytesJoined(a: seq<Word>, b: seq<Word>)
    ensures Bytes(a + b) == Bytes(a) + Bytes(b)
    decreases |b|
  {
    hide Pair;
    if b == [] {
      assert a + b == a;
    } else {
      var front := b[..|b| - 1];
      BytesJoined(a, front);
      assert (a + b)[..|a + b| - 1] == a + front;
      assert Bytes(a) + Bytes(front) + Pair(b[|b| - 1]) == Bytes(a) + Bytes(b);
    }
  }

  lemma {:induction false} BytesZero(ws: seq<Word>)
    requires forall k | 0 <= k < |ws| :: ws[k] == 0
    ensures Bytes(ws) == seq(2 * |ws|, _ => 0)
  {
    if ws != [] { BytesZero(ws[..|ws| - 1]); }
  }

  /** The bytes around a run of zeros, spread out again. */
  lemma SpreadRun(w: Words, base: int, len: int)
    requires ZeroRun(w, base, len)
    ensures Spread(Bytes(w[..base]) + Bytes(w[base + len..]), 2 * base) == Some(Bytes(w))
  {
    hide Bytes;
    var (front, run, back) := (w[..base], w[base..base + len], w[base + len..]);
    BytesZero(run);
    BytesJoined(front, run);
    BytesJoined(front + run, back);
    assert front + run + back == w;
    var out := Bytes(front) + Bytes(back);
    assert out[..2 * base] == Bytes(front) && out[2 * base..] == Bytes(back);
  }

  /** The text behind the double colon brings the bytes behind the zeros. */
  lemma RunTail(w: Words, base: int, len: int, st: Scan)
    requires ZeroRun(w, base, len) && Between(st, Tail(w, base, len))
    requires st.colon == |st.out| == 2 * base && st.out == Bytes(w[..base])
    ensures var r := Run6(Tail(w, base, len), st);
            ColonInside(r) && Finish6(r) == Spread(Bytes(w[..base]) + Bytes(w[base + len..]), 2 * base)
  {
    hide Run6, Bytes, Groups, Joined, Dotted;
    var rest := w[base + len..];
    if Embedded(w, base, len) {
      var (middle, back) := (w[len..6], w[6..]);
      RunGroups(middle, Dotted(Bytes(back)), st);
      var mid := Scan(st.out + Bytes(middle), st.colon, 0, 0, Dotted(Bytes(back)));
      RunDotted(Bytes(back), mid);
      assert rest == middle + back;
      BytesJoined(middle, back);
      assert mid.out + Bytes(back) == st.out + Bytes(rest);
    } else {
      RunJoined(rest, st);
    }
  }

  lemma NoLeadingColon(w: Word, tail: string)
    ensures Hex(w) + tail != "" && (Hex(w) + tail)[0] != ':'
  {
    HexChars(w);
    var h := Hex(w);
    hide Hex;
    assert (h + tail)[0] == h[0] && h[0] in h;
  }

  lemma {:induction false} GroupsFirst(ws: seq<Word>) returns (tail: string)
    requires ws != []
    ensures Groups(ws) == Hex(ws[0]) + tail
  {
    hide Hex;
    if |ws| == 1 {
      tail := ":";
      assert ws[..0] == [];
    } else {
      var front := ws[..|ws| - 1];
      var t := GroupsFirst(front);
      tail := t + Hex(ws[|ws| - 1]) + ":";
      assert Groups(ws) == Hex(ws[0]) + tail;
    }
  }

  lemma JoinedFirst(ws: seq<Word>) returns (tail: string)
    requires ws != []
    ensures Joined(ws) == Hex(ws[0]) + tail
  {
    hide Hex;
    var (front, h) := (ws[..|ws| - 1], Hex(ws[|ws| - 1]));
    if front == [] {
      tail := "";
    } else {
      var t := GroupsFirst(front);
      tail := t + h;
      assert Hex(ws[0]) + t + h == Hex(ws[0]) + tail;
    }
  }

  /** Without a leading colon the reading starts at the front. */
  lemma ParsePlain(w: Word, tail: string)
    ensures var s := Hex(w) + tail;
            ColonInside(Run6(s, Start6(s))) && Parse6(s) == Finish6(Run6(s, Start6(s)))
  {
    NoLeadingColon(w, tail);
    var s := Hex(w) + tail;
    hide Run6, Hex, Finish6;
    RunColon(s, Start6(s));
  }

  lemma PlainBack(w: Words)
    ensures Parse6(Joined(w)) == Some(Bytes(w))
  {
    var tail := JoinedFirst(w);
    ParsePlain(w[0], tail);
    hide Joined, Hex, Run6, Finish6, Parse6, Bytes;
    RunJoined(w, Start6(Joined(w)));
    assert [] + Bytes(w) == Bytes(w);
  }

  /** The second colon of two marks the place. */
  lemma RunMark(tail: string, st: Scan)
    requires st.Scan? && st.seen == 0 && st.colon < 0
    ensures Run6(":" + tail, st) == Run6(tail, st.(colon := |st.out|, tok := tail))
  {
    RunStep(':', tail, st);
    assert HexValue(':').None?;
  }

  /** The rest of the text, from the second colon on. */
  lemma MarkAndTail(w: Words, base: int, len: int, st: Scan)
    requires ZeroRun(w, base, len)
    requires st.Scan? && st.val == 0 && st.seen == 0 && st.colon == -1 && st.out == Bytes(w[..base])
    ensures var r := Run6(":" + Tail(w, base, len), st); ColonInside(r) && Finish6(r) == Some(Bytes(w))
  {
    hide Run6, Finish6, Spread, Tail, Bytes;
    var tail := Tail(w, base, len);
    RunMark(tail, st);
    RunTail(w, base, len, st.(colon := |st.out|, tok := tail));
    SpreadRun(w, base, len);
  }

  lemma LeadingBack(w: Words, len: int)
    requires ZeroRun(w, 0, len)
    ensures Parse6("::" + Tail(w, 0, len)) == Some(Bytes(w))
  {
    hide Run6, Finish6, Tail;
    var s := ":" + Tail(w, 0, len);
    assert ("::" + Tail(w, 0, len))[1..] == s && w[..0] == [];
    MarkAndTail(w, 0, len, Start6(s));
  }

  lemma GroupsColon(ws: seq<Word>)
    requires ws != []
    ensures Joined(ws) + ":" == Groups(ws)
  {
  }

  lemma InnerRun(w: Words, base: int, len: int, s: string)
    requires ZeroRun(w, base, len) && s == Groups(w[..base]) + (":" + Tail(w, base, len))
    ensures var r := Run6(s, Start6(s)); ColonInside(r) && Finish6(r) == Some(Bytes(w))
  {
    hide Run6, Finish6, Tail, Groups, Bytes;
    var front := w[..base];
    RunGroups(front, ":" + Tail(w, base, len), Start6(s));
    assert [] + Bytes(front) == Bytes(front);
    MarkAndTail(w, base, len, Scan(Bytes(front), -1, 0, 0, ":" + Tail(w, base, len)));
  }

  lemma Regroup(a: string, b: string, c: string, d: string)
    ensures a + b + c + d == a + (b + c + d)
  {
  }

  lemma TwoColons(a: string, b: string)
    ensures a + "::" + b == a + ":" + (":" + b)
  {
  }

  lemma InnerBack(w: Words, base: int, len: int)
    requires ZeroRun(w, base, len) && base > 0
    ensures Parse6(Joined(w[..base]) + "::" + Tail(w, base, len)) == Some(Bytes(w))
  {
    var (front, tail) := (w[..base], Tail(w, base, len));
    GroupsColon(front);
    hide Run6, Finish6, Tail, Joined, Groups, Hex, Bytes, Parse6;
    var s := Joined(front) + "::" + tail;
    var first := JoinedFirst(front);
    Regroup(Hex(w[0]), first, "::", tail);
    ParsePlain(w[0], first + "::" + tail);
    TwoColons(Joined(front), tail);
    InnerRun(w, base, len, s);
  }

  /** Whatever run of zeros is shortened, the text is read back as the same address. */
  lemma RoundTrip(w: Words, base: int, len: int)
    requires base == -1 || ZeroRun(w, base, len)
    ensures Parse6(Canonical(w, base, len)) == Some(Bytes(w))
  {
    hide Parse6, Joined, Tail, Bytes;
    if base == -1 {
      PlainBack(w);
    } else if base == 0 {
      LeadingBack(w, len);
      JoinedNone(w[..0]);
      assert "" + "::" + Tail(w, 0, len) == "::" + Tail(w, 0, len);
    } else {
      InnerBack(w, base, len);
    }
  }

  lemma JoinedNone(ws: seq<Word>)
    ensures ws == [] ==> Joined(ws) == ""
  {
  }
}

module Inet {
  import opened Basics
  import opened InetText
  import opened Inet6Text
  import opened InetTidy

  /** Text of an IPv4 address, unless it does not fit with its terminator. */
  method Ntop4(src: seq<Byte>, size: nat) returns (r: Option<string>)
    requires |src| == 4
    ensures r == if |Dotted(src)| < size then Some(Dotted(src)) else None
    ensures r.Some? ==> Tidy(r.value) && Parse4(r.value) == Some(src)
  {
    DottedIs(src);
    DottedTidy(src);
    DottedExactly(Dotted(src), src);
    hide Dotted;
    var tmp := Decimal(src[0]) + "." + Decimal(src[1]) + "." + Decimal(src[2]) + "." + Decimal(src[3]);
    if |tmp| >= size { return None; }
    return Some(tmp);
  }

  lemma DottedIs(bs: seq<Byte>)
    requires |bs| == 4
    ensures Dotted(bs) == Decimal(bs[0]) + "." + Decimal(bs[1]) + "." + Decimal(bs[2]) + "." + Decimal(bs[3])
  {
    hide Decimal;
    assert bs[..3][..2] == bs[..2] && bs[..2][..1] == bs[..1] && bs[..1][..0] == [];
    assert Dots(bs[..1]) == Dots([]) + Decimal(bs[0]) + "." == Decimal(bs[0]) + ".";
    assert Dots(bs[..2]) == Dots(bs[..1]) + Decimal(bs[1]) + ".";
    assert Dots(bs[..3]) == Dots(bs[..2]) + Decimal(bs[2]) + ".";
  }

  /** Reads exactly the dotted form. */
  method Pton4(src: string) returns (r: Option<seq<Byte>>)
    ensures r == Parse4(src)
  {
    hide Run4;
    var tmp := new Byte[4];
    var sawDigit, octets, tp, i := false, 0, 0, 0;
    tmp[0] := 0;
    assert src[0..] == src && tmp[..0] == [];
    while i < |src|
      invariant i <= |src| && 0 <= tp <= 3 && octets == tp + (if sawDigit then 1 else 0)
      invariant Run4(Reading([], 0, false), src) == Run4(Reading(tmp[..tp], tmp[tp], sawDigit), src[i..])
    {
      var ch := src[i];
      Run4Step(Reading(tmp[..tp], tmp[tp], sawDigit), src[i..]);
      assert src[i..][1..] == src[i + 1..];
      Run4Bad(src[i + 1..]);
      i := i + 1;
      if '0' <= ch <= '9' {
        var v := tmp[tp] * 10 + (ch - '0') as int;
        if sawDigit && tmp[tp] == 0 { return None; }
        if v > 255 { return None; }
        tmp[tp] := v;
        if !sawDigit {
          octets := octets + 1;
          if octets > 4 { return None; }
          sawDigit := true;
        }
      } else if ch == '.' && sawDigit {
        if octets == 4 { return None; }
        assert tmp[..tp + 1] == tmp[..tp] + [tmp[tp]];
        tp := tp + 1;
        tmp[tp] := 0;
        sawDigit := false;
      } else {
        return None;
      }
    }
    assert src[i..] == "";
    Run4End(Reading(tmp[..tp], tmp[tp], sawDigit));
    if octets < 4 { return None; }
    assert tmp[..] == tmp[..3] + [tmp[3]];
    return Some(tmp[..]);
  }

  lemma Run4Step(st: State4, s: string)
    requires s != ""
    ensures Run4(st, s) == Run4(Step4(st, s[0]), s[1..])
  {
  }

  lemma Run4End(st: State4)
    ensures Run4(st, "") == st
  {
  }

  lemma {:induction false} Run4Bad(s: string)
    ensures Run4(Bad4, s) == Bad4
    decreases |s|
  {
    if s != "" { Run4Bad(s[1..]); }
  }

  /** The longest run of zero words, the leftmost of several; (-1, ...) if none has two. */
  method FindRun(words: Words) returns (base: int, len: int)
    ensures base == -1 || ZeroRun(words, base, len)
    ensures Shortened(words, base, len)
  {
    base, len := -1, 0;
    var curBase, curLen := -1, 0;
    for i := 0 to 8
      invariant base == -1 || (ZeroRun(words, base, len) && base + len < (if curBase == -1 then i + 1 else curBase))
      invariant curBase == -1 ==> i == 0 || words[i - 1] != 0
      invariant curBase != -1 ==> ZeroRun(words, curBase, curLen) && curBase + curLen == i
      invariant curBase > 0 ==> words[curBase - 1] != 0
      invariant forall b, l | ZeroRun(words, b, l) && b + l <= i && (curBase == -1 || b < curBase) ::
                  Beaten(base, len, b, l)
    {
      if words[i] == 0 {
        if curBase == -1 { curBase, curLen := i, 1; } else { curLen := curLen + 1; }
      } else if curBase != -1 {
        if base == -1 || curLen > len { base, len := curBase, curLen; }
        curBase := -1;
      }
    }
    if curBase != -1 {
      if base == -1 || curLen > len { base, len := curBase, curLen; }
    }
    assert forall b, l | ZeroRun(words, b, l) :: Beaten(base, len, b, l);
    if base != -1 && len < 2 { base := -1; }
  }

  /** The run (base, len) is longer than (b, l), or as long and not to the right of it. */
  predicate Beaten(base: int, len: int, b: int, l: int) {
    base != -1 && (l < len || (l == len && base <= b))
  }

  /** Groups behind a colon each. */
  function Colons(ws: seq<Word>): string {
    if ws == [] then "" else Colons(ws[..|ws| - 1]) + ":" + Hex(ws[|ws| - 1])
  }

  lemma ColonsSnoc(ws: seq<Word>, w: Word)
    ensures Colons(ws + [w]) == Colons(ws) + ":" + Hex(w)
  {
    assert (ws + [w])[..|ws|] == ws;
  }

  lemma {:induction false} ColonsGroups(ws: seq<Word>)
    ensures Colons(ws) + ":" == ":" + Groups(ws)
  {
    hide Hex;
    if ws != [] {
      var (front, h) := (ws[..|ws| - 1], Hex(ws[|ws| - 1]));
      ColonsGroups(front);
      assert Colons(front) + ":" + h + ":" == ":" + Groups(front) + h + ":";
    }
  }

  lemma ColonsJoined(ws: seq<Word>)
    requires ws != []
    ensures Colons(ws) == ":" + Joined(ws)
  {
    hide Hex;
    var (front, h) := (ws[..|ws| - 1], Hex(ws[|ws| - 1]));
    ColonsGroups(front);
    assert Colons(front) + ":" + h == ":" + Groups(front) + h;
  }

  lemma JoinedColons(ws: seq<Word>, w: Word)
    requires ws != []
    ensures Joined(ws + [w]) == Joined(ws) + ":" + Hex(w)
  {
    hide Hex;
    assert (ws + [w])[..|ws|] == ws;
  }

  function WordsOf(src: seq<Byte>): Words
    requires |src| == 16
  {
    seq(8, k requires 0 <= k < 8 => WordAt(src, k))
  }

  function WordAt(src: seq<Byte>, k: nat): Word
    requires 2 * k + 1 < |src|
  {
    var (high: int, low: int) := (src[2 * k], src[2 * k + 1]);
    0x100 * high + low
  }

  /** What the writer has put down before group `i`. */
  function Written(w: Words, base: int, len: int, i: nat): string
    requires (base == -1 || ZeroRun(w, base, len)) && i <= 8
  {
    if base == -1 || i <= base then Joined(w[..i])
    else if i <= base + len then Joined(w[..base]) + ":"
    else Joined(w[..base]) + ":" + Colons(w[base + len..i])
  }

  lemma WrittenStep(w: Words, base: int, len: int, i: nat)
    requires (base == -1 || ZeroRun(w, base, len)) && i < 8
    ensures Written(w, base, len, i + 1) == Written(w, base, len, i) +
            if base != -1 && base <= i < base + len then (if i == base then ":" else "")
            else (if i != 0 then ":" else "") + Hex(w[i])
  {
    hide Hex, Joined, Colons;
    assert w[..i + 1] == w[..i] + [w[i]];
    if base == -1 || i < base {
      if i == 0 { JoinedOne(w[0]); assert w[..1] == [w[0]]; JoinedNothing(w[..0]); } else { JoinedColons(w[..i], w[i]); }
    } else if i >= base + len {
      assert w[base + len..i + 1] == w[base + len..i] + [w[i]];
      ColonsSnoc(w[base + len..i], w[i]);
      if i == base + len { ColonsNothing(w[base + len..i]); }
    }
  }

  lemma JoinedOne(w: Word)
    ensures Joined([w]) == Hex(w)
  {
    assert [w][..0] == [];
  }

  lemma JoinedNothing(ws: seq<Word>)
    requires ws == []
    ensures Joined(ws) == ""
  {
  }

  lemma ColonsNothing(ws: seq<Word>)
    requires ws == []
    ensures Colons(ws) == ""
  {
  }

  method PackWords(src: seq<Byte>) returns (words: Words)
    requires |src| == 16
    ensures words == WordsOf(src)
  {
    var w := new int[8](_ => 0);
    for i := 0 to 16
      invariant forall k | 0 <= k < i / 2 :: w[k] == WordAt(src, k)
      invariant i % 2 == 1 ==> w[i / 2] == 0x100 * (src[i - 1] as int)
      invariant forall k | (i + 1) / 2 <= k < 8 :: w[k] == 0
    {
      w[i / 2] := w[i / 2] + src[i] * (if i % 2 == 0 then 0x100 else 1);
    }
    assert forall k | 0 <= k < 8 :: w[k] == WordAt(src, k);
    words := WordsOf(src);
    assert w[..] == words;
  }

  lemma {:induction false} BytesAt(ws: seq<Word>, k: nat)
    requires k < |ws|
    ensures Bytes(ws)[2 * k..2 * k + 2] == Pair(ws[k])
  {
    hide Pair;
    var front := ws[..|ws| - 1];
    if k < |ws| - 1 {
      BytesAt(front, k);
      assert Bytes(ws)[2 * k..2 * k + 2] == Bytes(front)[2 * k..2 * k + 2];
    }
  }

  lemma PairBack(src: seq<Byte>, k: nat)
    requires 2 * k + 1 < |src|
    ensures Pair(WordAt(src, k)) == src[2 * k..2 * k + 2]
  {
  }

  /** The words hold the very bytes. */
  lemma WordsBytes(src: seq<Byte>)
    requires |src| == 16
    ensures Bytes(WordsOf(src)) == src
  {
    var b := Bytes(WordsOf(src));
    forall i | 0 <= i < 16 ensures b[i] == src[i] {
      var k := i / 2;
      BytesAt(WordsOf(src), k);
      PairBack(src, k);
      assert b[i] == b[2 * k..2 * k + 2][i % 2] && src[i] == src[2 * k..2 * k + 2][i % 2];
    }
  }

  lemma LastBytes(src: seq<Byte>)
    requires |src| == 16
    ensures Bytes(WordsOf(src)[6..]) == src[12..]
  {
    var w := WordsOf(src);
    hide Bytes, WordsOf;
    WordsBytes(src);
    BytesJoined(w[..6], w[6..]);
    assert w[..6] + w[6..] == w;
    assert src[12..] == (Bytes(w[..6]) + Bytes(w[6..]))[12..];
  }

  lemma EmbeddedText(w: Words, len: int)
    requires ZeroRun(w, 0, len) && Embedded(w, 0, len)
    ensures Written(w, 0, len, 6) + ":" == "::" + Groups(w[len..6])
    ensures |Written(w, 0, len, 6)| <= 6
    ensures Canonical(w, 0, len) == "::" + Groups(w[len..6]) + Dotted(Bytes(w[6..]))
  {
    hide Hex, Groups, Dotted, Bytes;
    JoinedNothing(w[..0]);
    assert "" + "::" + Tail(w, 0, len) == "::" + Groups(w[len..6]) + Dotted(Bytes(w[6..]));
    ColonsGroups(w[len..6]);
    if len == 6 {
      ColonsNothing(w[len..6]);
      assert |":" + Groups(w[len..6])| == 1;
    } else {
      HexChars(w[5]);
      assert w[5..6][..0] == [] && w[5..6][0] == w[5];
      assert Colons(w[5..6]) == Colons([]) + ":" + Hex(w[5]);
      assert "" + ":" + Colons(w[5..6]) + ":" == ":" + (Colons(w[5..6]) + ":");
    }
  }

  lemma WholeText(w: Words, base: int, len: int)
    requires base == -1 || ZeroRun(w, base, len)
    requires !(base != -1 && Embedded(w, base, len))
    ensures Canonical(w, base, len) ==
            Written(w, base, len, 8) + if base != -1 && base + len == 8 then ":" else ""
  {
    hide Hex, Joined;
    if base == -1 {
      assert w[..8] == w;
    } else if base + len == 8 {
      JoinedNothing(w[8..]);
      assert Joined(w[..base]) + "::" + "" == Joined(w[..base]) + ":" + ":";
    } else {
      ColonsJoined(w[base + len..]);
      assert w[base + len..8] == w[base + len..];
      assert Joined(w[..base]) + "::" + Joined(w[base + len..]) == Joined(w[..base]) + ":" + (":" + Joined(w[base + len..]));
    }
  }

  /** The writer's own test. It is made at group 6 only, which a run of seven covers. */
  predicate Encapsulated(w: Words, base: int, len: int) {
    base == 0 && (len == 6 || (len == 7 && w[7] != 1) || (len == 5 && w[5] == 0xffff))
  }

  /** The canonical text of an IPv6 address, unless it does not fit with its terminator. */
  method Ntop6(src: seq<Byte>, size: nat) returns (r: Option<string>, base: int, len: int)
    requires |src| == 16
    ensures base == -1 || ZeroRun(WordsOf(src), base, len)
    ensures Shortened(WordsOf(src), base, len)
    ensures var text := Canonical(WordsOf(src), base, len);
            |text| < 46 && r == if |text| < size then Some(text) else None
    ensures r.Some? ==> Tidy(r.value) && Parse6(r.value) == Some(src)
    ensures
      var w := WordsOf(src);
      r.Some? ==>
        (HasDot(r.value) <==>
         (forall k | 0 <= k < 5 :: w[k] == 0) && ((w[5] == 0 && w[6] != 0) || w[5] == 0xffff))
  {
    hide Hex, Joined, Groups, WordsOf, Canonical, Written, Dotted, Bytes, Tidy, HasDot, Parse6;
    var words := PackWords(src);
    base, len := FindRun(words);
    CanonicalShort(words, base, len);
    CanonicalTidy(words, base, len);
    DotExactly(words, base, len);
    AddressRoundTrip(src, base, len);
    var tp := "";
    var i := 0;
    var embedded := false;
    WrittenNothing(words, base, len);
    while i < 8
      invariant 0 <= i <= 8 && !embedded && tp == Written(words, base, len, i)
      invariant i >= 7 ==> !(base != -1 && Embedded(words, base, len))
    {
      WrittenStep(words, base, len, i);
      if base != -1 && base <= i < base + len {
        if i == base { tp := tp + ":"; }
        i := i + 1;
        continue;
      }
      if i != 0 { tp := tp + ":"; }
      if i == 6 && Encapsulated(words, base, len) {
        EmbeddedText(words, len);
        DottedShort(src[12..]);
        var v4 := Ntop4(src[12..], 46 - |tp|);
        if v4.None? { return None, base, len; }
        LastBytes(src);
        tp := tp + v4.value;
        assert tp == Canonical(words, base, len);
        embedded := true;
        break;
      }
      tp := tp + Hex(words[i]);
      i := i + 1;
    }
    if !embedded { WholeText(words, base, len); }
    if base != -1 && base + len == 8 { tp := tp + ":"; }
    assert tp == Canonical(words, base, len);
    if |tp| + 1 > size { return None, base, len; }
    return Some(tp), base, len;
  }

  lemma WrittenNothing(w: Words, base: int, len: int)
    requires base == -1 || ZeroRun(w, base, len)
    ensures Written(w, base, len, 0) == ""
  {
    JoinedNothing(w[..0]);
  }

  lemma DottedShort(bs: seq<Byte>)
    requires |bs| == 4
    ensures |Dotted(bs)| <= 15
  {
    DottedIs(bs);
    hide Dotted, Decimal;
    DecimalChars(bs[0]);
    DecimalChars(bs[1]);
    DecimalChars(bs[2]);
    DecimalChars(bs[3]);
  }

  lemma {:induction false} GroupsShort(ws: seq<Word>)
    ensures |Groups(ws)| <= 5 * |ws| && |Joined(ws)| <= 5 * |ws|
  {
    hide Hex;
    if ws != [] {
      GroupsShort(ws[..|ws| - 1]);
      HexChars(ws[|ws| - 1]);
    }
  }

  /** Every text fits the 46 bytes of the buffer, terminator included. */
  lemma CanonicalShort(w: Words, base: int, len: int)
    requires base == -1 || ZeroRun(w, base, len)
    ensures |Canonical(w, base, len)| < 46
  {
    hide Groups, Joined, Dotted;
    if base == -1 {
      GroupsShort(w);
    } else {
      GroupsShort(w[..base]);
      if Embedded(w, base, len) {
        GroupsShort(w[len..6]);
        DottedShort(Bytes(w[6..]));
      } else {
        GroupsShort(w[base + len..]);
      }
    }
  }

  // ------------------------------------------------------------------ reading

  /** Moves what came behind the double colon to the end, over zeros. */
  method ShiftUp(tmp: array<Byte>, tp: nat, colonp: nat)
    requires tmp.Length == 16 && colonp <= tp < 16
    requires forall k | tp <= k < 16 :: tmp[k] == 0
    modifies tmp
    ensures Some(tmp[..]) == Spread(old(tmp[..tp]), colonp)
  {
    ghost var out := tmp[..tp];
    var n := tp - colonp;
    var i := 1;
    while i <= n
      invariant 1 <= i <= n + 1
      invariant forall k | 0 <= k < tp - (i - 1) :: tmp[k] == out[k]
      invariant forall k | tp - (i - 1) <= k < 16 - (i - 1) :: tmp[k] == 0
      invariant forall k | 16 - (i - 1) <= k < 16 :: tmp[k] == out[k - (16 - tp)]
    {
      tmp[16 - i] := tmp[colonp + n - i];
      tmp[colonp + n - i] := 0;
      i := i + 1;
    }
    assert tmp[..] == out[..colonp] + seq(16 - tp, _ => 0) + out[colonp..];
  }

  method PutWord(tmp: array<Byte>, tp: nat, val: nat)
    requires tp + 2 <= tmp.Length
    modifies tmp
    ensures tmp[..tp + 2] == old(tmp[..tp]) + Pair(val)
    ensures forall k | tp + 2 <= k < tmp.Length :: tmp[k] == old(tmp[k])
  {
    tmp[tp] := val / 0x100 % 0x100;
    tmp[tp + 1] := val % 0x100;
  }

  method PutAddress(tmp: array<Byte>, tp: nat, bs: seq<Byte>)
    requires tp + 4 <= tmp.Length && |bs| == 4
    modifies tmp
    ensures tmp[..tp + 4] == old(tmp[..tp]) + bs
    ensures forall k | tp + 4 <= k < tmp.Length :: tmp[k] == old(tmp[k])
  {
    forall k | 0 <= k < 4 { tmp[tp + k] := bs[k]; }
  }

  /** Completes the address: the last group, then the shift. */
  method Complete(tmp: array<Byte>, tp: nat, colonp: int, seen: nat, val: nat) returns (r: Option<seq<Byte>>)
    requires tmp.Length == 16 && tp <= 16 && colonp <= tp
    requires forall k | tp <= k < 16 :: tmp[k] == 0
    modifies tmp
    ensures r == if seen > 0 then (if tp + 2 > 16 then None else Spread(old(tmp[..tp]) + Pair(val), colonp))
                 else Spread(old(tmp[..tp]), colonp)
  {
    hide Spread, Pair;
    var end := tp;
    if seen > 0 {
      if tp + 2 > 16 { return None; }
      PutWord(tmp, tp, val);
      end := tp + 2;
    }
    SpreadCases(tmp[..end], colonp);
    if colonp >= 0 {
      if end == 16 { return None; }
      ShiftUp(tmp, end, colonp);
      end := 16;
    }
    if end != 16 { return None; }
    assert tmp[..16] == tmp[..];
    return Some(tmp[..]);
  }

  lemma SpreadCases(out: seq<Byte>, colon: int)
    requires colon <= |out| <= 16
    ensures colon >= 0 && |out| == 16 ==> Spread(out, colon) == None
    ensures colon < 0 ==> Spread(out, colon) == if |out| == 16 then Some(out) else None
  {
  }

  /** Reads an IPv6 address, with or without a dotted part. */
  method Pton6(src: string) returns (r: Option<seq<Byte>>)
    ensures r == Parse6(src)
  {
    hide Run6, Finish6, Spread, Parse4, Pair, HexValue;
    var tmp := new Byte[16](_ => 0);
    var tp, colonp, text := 0, -1, src;
    if src != "" && src[0] == ':' {
      text := src[1..];
      if text == "" || text[0] != ':' { return None; }
    }
    ghost var start := Start6(text);
    RunColon(text, start);
    var val: nat := 0;
    var curtok, seen, i, ended := text, 0, 0, false;
    FinishCases(Run6(text, start));
    assert text[0..] == text && tmp[..0] == [];
    while i < |text|
      invariant i <= |text| && 0 <= tp <= 16 && colonp <= tp && seen <= 4 && !ended
      invariant forall k | tp <= k < 16 :: tmp[k] == 0
      invariant Run6(text, start) == Run6(text[i..], Scan(tmp[..tp], colonp, val, seen, curtok))
    {
      ghost var st := Scan(tmp[..tp], colonp, val, seen, curtok);
      var ch := text[i];
      assert text[i..] == [ch] + text[i + 1..];
      RunStep(ch, text[i + 1..], st);
      EndedStays(text[i + 1..], Step6(ch, text[i + 1..], st));
      i := i + 1;
      var d := HexValue(ch);
      if d.Some? {
        val := val * 16 + d.value;
        seen := seen + 1;
        if seen > 4 { return None; }
        continue;
      }
      if ch == ':' {
        curtok := text[i..];
        if seen == 0 {
          if colonp >= 0 { return None; }
          colonp := tp;
          continue;
        }
        if tp + 2 > 16 { return None; }
        PutWord(tmp, tp, val);
        tp, seen, val := tp + 2, 0, 0;
        continue;
      }
      if ch == '.' && tp + 4 <= 16 {
        var v4 := Pton4(curtok);
        if v4.Some? {
          PutAddress(tmp, tp, v4.value);
          tp, seen, ended := tp + 4, 0, true;
          break;
        }
      }
      return None;
    }
    assert !ended ==> text[i..] == "";
    RunEnd(Scan(tmp[..tp], colonp, val, seen, curtok));
    r := Complete(tmp, tp, colonp, seen, val);
  }

  /** Writing an address and reading the text gives the address back. */
  lemma AddressRoundTrip(src: seq<Byte>, base: int, len: int)
    requires |src| == 16 && (base == -1 || ZeroRun(WordsOf(src), base, len))
    ensures Parse6(Canonical(WordsOf(src), base, len)) == Some(src)
  {
    RoundTrip(WordsOf(src), base, len);
    WordsBytes(src);
  }

  /** With room for 46 characters every address is written, and read back. */
  method WriteAndRead(src: seq<Byte>, size: nat) returns (text: Option<string>, back: Option<seq<Byte>>)
    requires |src| == 16 && size >= 46
    ensures text.Some? && back == Some(src)
  {
    hide Canonical, WordsOf, Parse6;
    var base, len;
    text, base, len := Ntop6(src, size);
    AddressRoundTrip(src, base, len);
    back := Pton6(text.value);
  }

  /** Only one run can be the one that is shortened. */
  lemma ShortenedOnce(w: Words, b: int, l: int, b': int, l': int)
    requires (b == -1 || ZeroRun(w, b, l)) && Shortened(w, b, l)
    requires (b' == -1 || ZeroRun(w, b', l')) && Shortened(w, b', l')
    ensures b == b' && (b != -1 ==> l == l')
  {
  }
}
