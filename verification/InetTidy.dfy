/** What the text of an address looks like, character by character. */
module InetTidy {
  import opened Basics
  import opened InetText
  import opened Inet6Text

  /** Lower case, as section 4.3 of RFC 5952 asks. */
  predicate Plain(c: char) {
    '0' <= c <= '9' || 'a' <= c <= 'f' || Mark(c)
  }

  predicate Mark(c: char) {
    c == ':' || c == '.'
  }

  /** Plain characters only, and no number but 0 itself begins with a zero (section 4.1). */
  predicate Tidy(s: string) {
    forall i | 0 <= i < |s| :: Plain(s[i]) && (LeadingZero(s, i) ==> i + 1 == |s| || Mark(s[i + 1]))
  }

  predicate LeadingZero(s: string, i: nat)
    requires i < |s|
  {
    s[i] == '0' && (i == 0 || Mark(s[i - 1]))
  }

  lemma TidyJoin(a: string, b: string)
    requires Tidy(a) && Tidy(b)
    requires a == "" || b == "" || Mark(a[|a| - 1]) || Mark(b[0])
    ensures Tidy(a + b)
  {
    var s := a + b;
    forall i | 0 <= i < |s|
      ensures Plain(s[i]) && (LeadingZero(s, i) ==> i + 1 == |s| || Mark(s[i + 1]))
    {
      if i < |a| {
        assert s[i] == a[i] && (i > 0 ==> s[i - 1] == a[i - 1]);
        assert Plain(a[i]) && (LeadingZero(a, i) ==> i + 1 == |a| || Mark(a[i + 1]));
        if i + 1 < |a| { assert s[i + 1] == a[i + 1]; }
        if i + 1 == |a| < |s| { assert s[i + 1] == b[0]; }
      } else {
        var j := i - |a|;
        assert s[i] == b[j] && (j > 0 ==> s[i - 1] == b[j - 1]);
        assert Plain(b[j]) && (LeadingZero(b, j) ==> j + 1 == |b| || Mark(b[j + 1]));
        if j + 1 < |b| { assert s[i + 1] == b[j + 1]; }
      }
    }
  }

  lemma DigitPlain(n: nat)
    requires n < 16
    ensures Plain(Digit(n)) && !Mark(Digit(n)) && (Digit(n) == '0' <==> n == 0)
  {
  }

  predicate NoMark(s: string) {
    forall c <- s :: !Mark(c) && Plain(c)
  }

  lemma {:induction false} NumeralPlain(n: nat, base: nat)
    requires 2 <= base <= 16
    ensures NoMark(Numeral(n, base)) && (Numeral(n, base)[0] == '0' <==> n == 0)
    ensures n < base ==> |Numeral(n, base)| == 1
    decreases n
  {
    NumeralIs(n, base);
    if n < base {
      OneDigit(n);
    } else {
      Quotient(n, base);
      NumeralPlain(n / base, base);
      MoreDigits(Numeral(n / base, base), n % base);
    }
  }

  lemma NumeralIs(n: nat, base: nat)
    requires 2 <= base <= 16
    ensures n < base ==> Numeral(n, base) == [Digit(n)]
    ensures n >= base ==> Numeral(n, base) == Numeral(n / base, base) + [Digit(n % base)]
  {
    hide Digit;
    if n < base { Division(n, base, 0, n); }
  }

  lemma Quotient(n: nat, base: nat)
    requires 2 <= base <= n
    ensures 0 < n / base < n && 0 <= n % base < base
  {
    var q := n / base;
    assert n == base * q + n % base;
    if q >= n { Distribute(base, q - n, n); }
  }

  lemma OneDigit(n: nat)
    requires n < 16
    ensures NoMark([Digit(n)]) && (Digit(n) == '0' <==> n == 0)
  {
    DigitPlain(n);
    hide Digit, Plain, Mark;
  }

  lemma MoreDigits(s: string, d: nat)
    requires NoMark(s) && s != "" && d < 16
    ensures NoMark(s + [Digit(d)]) && (s + [Digit(d)])[0] == s[0]
  {
    DigitPlain(d);
    hide Digit, Plain, Mark;
  }

  lemma NumeralTidy(n: nat, base: nat)
    requires 2 <= base <= 16
    ensures Tidy(Numeral(n, base)) && Numeral(n, base) != ""
  {
    NumeralPlain(n, base);
    var s := Numeral(n, base);
    hide Numeral, Plain;
    forall i | 0 <= i < |s|
      ensures Plain(s[i]) && (LeadingZero(s, i) ==> i + 1 == |s| || Mark(s[i + 1]))
    {
      assert s[i] in s;
      if i > 0 { assert s[i - 1] in s; }
    }
  }

  lemma HexTidy(w: Word)
    ensures Tidy(Hex(w)) && Hex(w) != ""
  {
    NumeralTidy(w, 16);
  }

  lemma MarkTidy()
    ensures Tidy(":") && Tidy(".") && Tidy("::") && Tidy("")
  {
  }

  lemma {:induction false} DotsTidy(bs: seq<Byte>)
    ensures Tidy(Dots(bs)) && (bs != [] ==> Dots(bs) != "" && Dots(bs)[|Dots(bs)| - 1] == '.')
  {
    MarkTidy();
    if bs != [] {
      var (front, n) := (bs[..|bs| - 1], Decimal(bs[|bs| - 1]));
      DotsTidy(front);
      NumeralTidy(bs[|bs| - 1], 10);
      hide Tidy;
      TidyJoin(Dots(front), n);
      TidyJoin(Dots(front) + n, ".");
    }
  }

  lemma DottedTidy(bs: seq<Byte>)
    requires |bs| == 4
    ensures Tidy(Dotted(bs))
  {
    DotsTidy(bs[..3]);
    NumeralTidy(bs[3], 10);
    hide Tidy, Dots;
    TidyJoin(Dots(bs[..3]), Decimal(bs[3]));
  }

  lemma {:induction false} GroupsTidy(ws: seq<Word>)
    ensures Tidy(Groups(ws)) && (ws != [] ==> Groups(ws) != "" && Groups(ws)[|Groups(ws)| - 1] == ':')
  {
    MarkTidy();
    if ws != [] {
      var (front, h) := (ws[..|ws| - 1], Hex(ws[|ws| - 1]));
      GroupsTidy(front);
      HexTidy(ws[|ws| - 1]);
      hide Tidy, Hex;
      GroupsNone(front);
      TidyJoin(Groups(front), h);
      TidyJoin(Groups(front) + h, ":");
    }
  }

  lemma GroupsNone(ws: seq<Word>)
    ensures ws == [] ==> Groups(ws) == ""
  {
  }

  lemma JoinedTidy(ws: seq<Word>)
    ensures Tidy(Joined(ws))
  {
    MarkTidy();
    if ws != [] {
      var (front, h) := (ws[..|ws| - 1], Hex(ws[|ws| - 1]));
      GroupsTidy(front);
      HexTidy(ws[|ws| - 1]);
      GroupsNone(front);
      hide Tidy, Hex, Groups;
      TidyJoin(Groups(front), h);
    }
  }

  /** The text of an address is in lower case and without padding zeros. */
  lemma CanonicalTidy(w: Words, base: int, len: int)
    requires base == -1 || ZeroRun(w, base, len)
    ensures Tidy(Canonical(w, base, len))
  {
    MarkTidy();
    if base == -1 {
      JoinedTidy(w);
    } else {
      var tail := Tail(w, base, len);
      JoinedTidy(w[..base]);
      if Embedded(w, base, len) {
        GroupsTidy(w[len..6]);
        GroupsNone(w[len..6]);
        DottedTidy(Bytes(w[6..]));
        hide Tidy, Groups, Dotted, Bytes;
        TidyJoin(Groups(w[len..6]), Dotted(Bytes(w[6..])));
      } else {
        JoinedTidy(w[base + len..]);
      }
      hide Tidy, Joined, Tail;
      TidyJoin(Joined(w[..base]), "::");
      TidyJoin(Joined(w[..base]) + "::", tail);
    }
  }

  // -------------------------------------------------------------- the dotted part

  predicate HasDot(s: string) {
    exists i :: 0 <= i < |s| && s[i] == '.'
  }

  lemma DotJoin(a: string, b: string)
    ensures HasDot(a + b) <==> HasDot(a) || HasDot(b)
  {
    var s := a + b;
    if i :| 0 <= i < |a| && a[i] == '.' { assert s[i] == '.'; }
    if i :| 0 <= i < |b| && b[i] == '.' { assert s[|a| + i] == '.'; }
    if i :| 0 <= i < |s| && s[i] == '.' {
      if i < |a| { assert a[i] == '.'; } else { assert b[i - |a|] == '.'; }
    }
  }

  lemma HexNoDot(w: Word)
    ensures !HasDot(Hex(w))
  {
    NumeralPlain(w, 16);
    var h := Hex(w);
    hide Hex;
    forall i | 0 <= i < |h| ensures h[i] != '.' { assert h[i] in h; }
  }

  lemma {:induction false} GroupsNoDot(ws: seq<Word>)
    ensures !HasDot(Groups(ws)) && !HasDot(Joined(ws))
  {
    if ws != [] {
      var (front, h) := (ws[..|ws| - 1], Hex(ws[|ws| - 1]));
      GroupsNoDot(front);
      HexNoDot(ws[|ws| - 1]);
      assert !HasDot(":");
      hide HasDot, Hex;
      DotJoin(Groups(front), h);
      DotJoin(Groups(front) + h, ":");
    }
  }

  lemma DottedDot(bs: seq<Byte>)
    requires |bs| == 4
    ensures HasDot(Dotted(bs))
  {
    DotsTidy(bs[..3]);
    var d := Dots(bs[..3]);
    assert d[|d| - 1] == '.';
    hide Dots, HasDot;
    DotAtEnd(d);
    DotJoin(d, Decimal(bs[3]));
  }

  lemma DotAtEnd(d: string)
    requires d != "" && d[|d| - 1] == '.'
    ensures HasDot(d)
  {
    assert d[|d| - 1] == '.';
  }

  /** A dotted part is written exactly for addresses that begin with six groups of zeros
      and a seventh that is not, or with five and then ffff. */
  lemma DotExactly(w: Words, base: int, len: int)
    requires (base == -1 || ZeroRun(w, base, len)) && Shortened(w, base, len)
    ensures HasDot(Canonical(w, base, len)) <==>
            (forall k | 0 <= k < 5 :: w[k] == 0) && ((w[5] == 0 && w[6] != 0) || w[5] == 0xffff)
  {
    EmbeddedExactly(w, base, len);
    assert !HasDot("::") && !HasDot("");
    if base == -1 {
      GroupsNoDot(w);
    } else {
      GroupsNoDot(w[..base]);
      if Embedded(w, base, len) {
        DottedDot(Bytes(w[6..]));
        DotJoin(Groups(w[len..6]), Dotted(Bytes(w[6..])));
      } else {
        GroupsNoDot(w[base + len..]);
      }
      hide HasDot, Joined, Tail;
      DotJoin(Joined(w[..base]), "::");
      DotJoin(Joined(w[..base]) + "::", Tail(w, base, len));
    }
  }

  lemma EmbeddedExactly(w: Words, base: int, len: int)
    requires (base == -1 || ZeroRun(w, base, len)) && Shortened(w, base, len)
    ensures base != -1 && Embedded(w, base, len) <==>
            (forall k | 0 <= k < 5 :: w[k] == 0) && ((w[5] == 0 && w[6] != 0) || w[5] == 0xffff)
  {
    if base != -1 && Embedded(w, base, len) && len == 6 && w[6] == 0 {
      assert ZeroRun(w, 0, 7);
    }
    if forall k | 0 <= k < 5 :: w[k] == 0 {
      assert ZeroRun(w, 0, 5);
      if w[5] == 0 {
        assert ZeroRun(w, 0, 6);
      }
    }
  }
}
