/** The texts that the IPv6 reader accepts, as a grammar. */
module InetGrammar {
  import opened Basics
  import opened InetText
  import opened Inet6Text

  predicate HexDigits(t: string) {
    |t| <= 4 && forall c <- t :: HexValue(c).Some?
  }

  /** A group: one to four hexadecimal digits, in either case. */
  predicate Group(t: string) {
    t != "" && HexDigits(t)
  }

  function HexNumber(t: string): nat {
    if t == "" then 0 else HexNumber(t[..|t| - 1]) * 16 + Nibble(t[|t| - 1])
  }

  function Nibble(c: char): nat {
    if HexValue(c).Some? then HexValue(c).value else 0
  }

  predicate AllGroups(ts: seq<string>) {
    forall t <- ts :: Group(t)
  }

  /** Groups, each followed by a colon. */
  function Listed(ts: seq<string>): string {
    if ts == [] then "" else Listed(ts[..|ts| - 1]) + ts[|ts| - 1] + ":"
  }

  function Values(ts: seq<string>): (r: seq<Byte>)
    requires AllGroups(ts)
    ensures |r| == 2 * |ts|
  {
    if ts == [] then [] else Values(ts[..|ts| - 1]) + Pair(HexNumber(ts[|ts| - 1]))
  }

  /** What may stand at the end, without a colon behind it. */
  datatype End = Nothing | Last(digits: string) | Quad(octets: seq<Byte>)

  /** Groups, then perhaps a second colon and more groups, then the end. */
  datatype Form = Form(front: seq<string>, mark: bool, back: seq<string>, end: End)

  function Size(f: Form): nat {
    2 * |f.front| + 2 * |f.back| + (if f.end.Nothing? then 0 else if f.end.Last? then 2 else 4)
  }

  /** Sixteen bytes, or fewer around a double colon. */
  predicate Proper(f: Form) {
    && AllGroups(f.front) && AllGroups(f.back)
    && (f.end.Last? ==> Group(f.end.digits)) && (f.end.Quad? ==> |f.end.octets| == 4)
    && (if f.mark then Size(f) < 16 else f.back == [] && Size(f) == 16)
  }

  function EndText(e: End): string
    requires e.Quad? ==> |e.octets| == 4
  {
    match e
    case Nothing => ""
    case Last(digits) => digits
    case Quad(octets) => Dotted(octets)
  }

  function EndValue(e: End): seq<Byte>
    requires e.Last? ==> Group(e.digits)
  {
    match e
    case Nothing => []
    case Last(digits) => Pair(HexNumber(digits))
    case Quad(octets) => octets
  }

  function Body(f: Form): string
    requires f.end.Quad? ==> |f.end.octets| == 4
  {
    Listed(f.front) + ((if f.mark then ":" + Listed(f.back) else "") + EndText(f.end))
  }

  /** A double colon at the front is the only place where a colon comes first. */
  function Text(f: Form): string
    requires f.end.Quad? ==> |f.end.octets| == 4
  {
    (if f.mark && f.front == [] then ":" else "") + Body(f)
  }

  function Value(f: Form): seq<Byte>
    requires Proper(f)
  {
    if f.mark then Values(f.front) + seq(16 - Size(f), _ => 0) + (Values(f.back) + EndValue(f.end))
    else Values(f.front) + EndValue(f.end)
  }

  // ------------------------------------------------------------ reading a form

  lemma HexSnoc(t: string, c: char)
    ensures HexNumber(t + [c]) == HexNumber(t) * 16 + Nibble(c)
    ensures (forall x <- t :: HexValue(x).Some?) && HexValue(c).Some? ==> forall x <- t + [c] :: HexValue(x).Some?
  {
    hide HexValue, Nibble;
    assert (t + [c])[..|t|] == t;
  }

  lemma StepHex(c: char, tail: string, st: Scan)
    requires st.Scan? && st.seen < 4 && HexValue(c).Some?
    ensures Step6(c, tail, st) == st.(val := st.val * 16 + Nibble(c), seen := st.seen + 1)
  {
    hide HexValue, Parse4;
  }

  lemma {:induction false} RunDigitsOf(t: string, tail: string, st: Scan)
    requires st.Scan? && st.val == 0 && st.seen == 0 && HexDigits(t)
    ensures Run6(t + tail, st) == Run6(tail, st.(val := HexNumber(t), seen := |t|))
    decreases |t|
  {
    if t == "" {
      assert t + tail == tail;
    } else {
      hide Run6, Step6, HexValue, Nibble, HexNumber;
      var (front, c) := (t[..|t| - 1], t[|t| - 1]);
      assert c in t && forall x <- front :: x in t;
      assert t + tail == front + ([c] + tail);
      RunDigitsOf(front, [c] + tail, st);
      var mid := st.(val := HexNumber(front), seen := |front|);
      RunStep(c, tail, mid);
      StepHex(c, tail, mid);
      HexSnoc(front, c);
      assert front + [c] == t;
    }
  }

  lemma RunColonAfter(tail: string, st: Scan)
    requires st.Scan? && st.seen > 0 && |st.out| <= 14
    ensures Run6(":" + tail, st) == Run6(tail, Scan(st.out + Pair(st.val), st.colon, 0, 0, tail))
  {
    hide Pair;
    RunStep(':', tail, st);
    assert HexValue(':').None?;
  }

  lemma MoreListed(ts: seq<string>, t: string)
    ensures Listed([]) == "" && Listed(ts + [t]) == Listed(ts) + t + ":"
  {
    assert (ts + [t])[..|ts|] == ts;
  }

  lemma ListedThen(ts: seq<string>, t: string, tail: string)
    ensures Listed(ts + [t]) + tail == Listed(ts) + (t + (":" + tail))
  {
    MoreListed(ts, t);
    hide Listed;
  }

  lemma MoreValues(ts: seq<string>, t: string)
    requires AllGroups(ts) && Group(t)
    ensures AllGroups(ts + [t]) && Values(ts + [t]) == Values(ts) + Pair(HexNumber(t))
  {
    hide HexNumber, Pair, HexValue;
    assert (ts + [t])[..|ts|] == ts;
  }

  lemma {:induction false} RunListed(ts: seq<string>, tail: string, st: Scan)
    requires AllGroups(ts) && Between(st, Listed(ts) + tail) && |st.out| + 2 * |ts| <= 16
    ensures Run6(Listed(ts) + tail, st) == Run6(tail, Scan(st.out + Values(ts), st.colon, 0, 0, tail))
    decreases |ts|
  {
    if ts == [] {
      assert st.out + Values(ts) == st.out && Listed(ts) + tail == tail;
    } else {
      hide Run6, Pair, Listed, Values, HexNumber;
      var (front, t) := (ts[..|ts| - 1], ts[|ts| - 1]);
      assert t in ts && forall x <- front :: x in ts;
      var more := t + (":" + tail);
      assert ts == front + [t];
      ListedThen(front, t, tail);
      MoreValues(front, t);
      RunListed(front, more, st);
      var mid := Scan(st.out + Values(front), st.colon, 0, 0, more);
      RunDigitsOf(t, ":" + tail, mid);
      RunColonAfter(tail, mid.(val := HexNumber(t), seen := |t|));
      assert st.out + Values(front) + Pair(HexNumber(t)) == st.out + (Values(front) + Pair(HexNumber(t)));
    }
  }

  /** What the reader makes of the end of a text. */
  lemma RunFinal(e: End, st: Scan)
    requires (e.Last? ==> Group(e.digits)) && (e.Quad? ==> |e.octets| == 4)
    requires Between(st, EndText(e)) && st.colon <= |st.out| && |st.out| + |EndValue(e)| <= 16
    ensures var r := Run6(EndText(e), st);
            ColonInside(r) && Finish6(r) == Spread(st.out + EndValue(e), st.colon)
  {
    hide Run6, Pair, Dotted;
    match e {
      case Nothing =>
        RunEnd(st);
        assert st.out + [] == st.out;
      case Last(digits) =>
        assert digits + "" == digits;
        RunDigitsOf(digits, "", st);
        RunEnd(st.(val := HexNumber(digits), seen := |digits|));
        PairSize(HexNumber(digits));
        FinishCases(st.(val := HexNumber(digits), seen := |digits|));
      case Quad(octets) =>
        RunDotted(octets, st);
        FinishCases(Ended(st.out + octets, st.colon));
    }
  }

  lemma EndSize(e: End)
    requires (e.Last? ==> Group(e.digits)) && (e.Quad? ==> |e.octets| == 4)
    ensures |EndValue(e)| == if e.Nothing? then 0 else if e.Last? then 2 else 4
  {
    hide Pair, HexNumber;
    if e.Last? { PairSize(HexNumber(e.digits)); }
  }

  lemma PairSize(v: nat)
    ensures |Pair(v)| == 2
  {
  }

  /** Every proper form is read as its value. */
  lemma BodyRead(f: Form)
    requires Proper(f)
    ensures var r := Run6(Body(f), Start6(Body(f))); ColonInside(r) && Finish6(r) == Some(Value(f))
  {
    hide Run6, Finish6, Pair, EndValue, EndText, Listed, Values;
    EndSize(f.end);
    var st := Start6(Body(f));
    if f.mark {
      var tail := Listed(f.back) + EndText(f.end);
      assert (":" + Listed(f.back)) + EndText(f.end) == ":" + tail;
      RunListed(f.front, ":" + tail, st);
      assert [] + Values(f.front) == Values(f.front);
      var mid := Scan(Values(f.front), -1, 0, 0, ":" + tail);
      RunMark(tail, mid);
      var back := mid.(colon := |mid.out|, tok := tail);
      RunListed(f.back, EndText(f.end), back);
      RunFinal(f.end, Scan(back.out + Values(f.back), back.colon, 0, 0, EndText(f.end)));
      var out := back.out + Values(f.back) + EndValue(f.end);
      assert out[..|mid.out|] == Values(f.front);
      assert out[|mid.out|..] == Values(f.back) + EndValue(f.end);
    } else {
      assert "" + EndText(f.end) == EndText(f.end);
      RunListed(f.front, EndText(f.end), st);
      assert [] + Values(f.front) == Values(f.front);
      RunFinal(f.end, Scan(Values(f.front), -1, 0, 0, EndText(f.end)));
    }
  }

  // -------------------------------------------------- recovering what was read

  /** The form as far as it has been read, with the digits of a group that has begun. */
  predicate Follows(f: Form, st: Scan) {
    && st.Scan? && AllGroups(f.front) && AllGroups(f.back) && (!f.mark ==> f.back == [])
    && f.end.Last? && HexDigits(f.end.digits)
    && st.out == Values(f.front) + Values(f.back)
    && st.colon == (if f.mark then 2 * |f.front| else -1)
    && st.val == HexNumber(f.end.digits) && st.seen == |f.end.digits|
  }

  /** The form after one more character that does not end it. */
  function Grown(f: Form, c: char): Form
    requires f.end.Last?
  {
    if c != ':' then f.(end := Last(f.end.digits + [c]))
    else if f.end.digits == "" then f.(mark := true)
    else if f.mark then f.(back := f.back + [f.end.digits], end := Last(""))
    else f.(front := f.front + [f.end.digits], end := Last(""))
  }

  lemma GrownFollows(f: Form, st: Scan, c: char, rest: string)
    requires Follows(f, st) && (c == ':' || HexValue(c).Some?)
    requires st.tok == f.end.digits + ([c] + rest) && Step6(c, rest, st).Scan?
    ensures Follows(Grown(f, c), Step6(c, rest, st))
    ensures Step6(c, rest, st).tok == Grown(f, c).end.digits + rest
  {
    var t := f.end.digits;
    if c == ':' {
      assert HexValue(c).None?;
      if t == "" { MarkFollows(f, st, rest); } else { GroupFollows(f, st, rest); }
    } else {
      assert st.seen < 4;
      StepHex(c, rest, st);
      HexSnoc(t, c);
      hide HexValue, Pair, HexNumber, Values, Step6, Nibble;
      assert t + ([c] + rest) == (t + [c]) + rest;
    }
  }

  lemma MarkFollows(f: Form, st: Scan, rest: string)
    requires Follows(f, st) && f.end.digits == "" && st.colon < 0
    ensures Follows(Grown(f, ':'), st.(colon := |st.out|, tok := rest))
  {
    hide HexValue, HexNumber, Pair;
    NoValues();
  }

  lemma GroupFollows(f: Form, st: Scan, rest: string)
    requires Follows(f, st) && f.end.digits != "" && |st.out| <= 14
    ensures Follows(Grown(f, ':'), Scan(st.out + Pair(st.val), st.colon, 0, 0, rest))
  {
    hide HexValue, HexNumber, Pair, Values;
    var t := f.end.digits;
    HexNone();
    NoValues();
    MoreValues(if f.mark then f.back else f.front, t);
    if f.mark {
      assert Values(f.front) + Values(f.back) + Pair(HexNumber(t)) == Values(f.front) + Values(f.back + [t]);
    } else {
      assert Values(f.front) + [] + Pair(HexNumber(t)) == Values(f.front + [t]) + [];
    }
  }

  lemma HexNone()
    ensures HexNumber("") == 0
  {
  }

  lemma NoValues()
    ensures Values([]) == []
  {
  }

  lemma GrownBody(f: Form, c: char)
    requires f.end.Last? && (!f.mark ==> f.back == [])
    requires c == ':' && f.end.digits == "" ==> !f.mark
    ensures Grown(f, c).end.Last? && Body(Grown(f, c)) == Body(f) + [c]
  {
    var t := f.end.digits;
    MoreListed(f.front, t);
    MoreListed(f.back, t);
    hide Listed;
    var (l, m) := (Listed(f.front), Listed(f.back));
    if c != ':' {
      Regrown(l, if f.mark then ":" + m else "", t, c);
    } else if t == "" {
      assert l + ((":" + "") + "") == l + ("" + "") + [c];
    } else if f.mark {
      assert l + ((":" + (m + t + ":")) + "") == l + ((":" + m) + t) + [c];
    } else {
      assert (l + t + ":") + ("" + "") == l + ("" + t) + [c];
    }
  }

  lemma Regrown(a: string, b: string, t: string, c: char)
    ensures a + (b + (t + [c])) == a + (b + t) + [c]
  {
  }

  /** Where the text ends, the form is complete. */
  lemma EndRecovered(f: Form, st: Scan, e: End)
    requires AllGroups(f.front) && AllGroups(f.back) && (!f.mark ==> f.back == [])
    requires (e.Last? ==> Group(e.digits)) && (e.Quad? ==> |e.octets| == 4)
    requires !st.Bad? && st.out == Values(f.front) + Values(f.back) + EndValue(e)
    requires st.colon == (if f.mark then 2 * |f.front| else -1)
    requires Spread(st.out, st.colon).Some?
    ensures Proper(f.(end := e)) && Spread(st.out, st.colon) == Some(Value(f.(end := e)))
  {
    hide EndValue, Values, HexNumber;
    EndSize(e);
    NoValues();
    if f.mark {
      assert st.out[..2 * |f.front|] == Values(f.front);
      assert st.out[2 * |f.front|..] == Values(f.back) + EndValue(e);
    } else {
      assert st.out == Values(f.front) + EndValue(e);
    }
  }

  /** The end of a text that stops within or behind a group. */
  function Stopped(f: Form): End
    requires f.end.Last?
  {
    if f.end.digits == "" then Nothing else f.end
  }

  lemma StopRecovered(f: Form, st: Scan)
    requires Follows(f, st) && ColonInside(st) && Finish6(st).Some?
    ensures Proper(f.(end := Stopped(f))) && Finish6(st) == Some(Value(f.(end := Stopped(f))))
    ensures Body(f.(end := Stopped(f))) == Body(f) + ""
  {
    StoppedBody(f);
    hide Body;
    FinishCases(st);
    hide Finish6, Values, Pair, HexNumber, HexValue, Spread;
    var out := Values(f.front) + Values(f.back);
    if f.end.digits == "" {
      assert out + [] == out;
      EndRecovered(f, st, Nothing);
    } else {
      EndRecovered(f, Ended(st.out + Pair(st.val), st.colon), f.end);
    }
  }

  lemma QuadRecovered(f: Form, st: Scan, s: string, next: Scan) returns (g: Form)
    requires Follows(f, st) && ColonInside(st) && st.tok == f.end.digits + s && Parse4(st.tok).Some?
    requires next == Ended(st.out + Parse4(st.tok).value, st.colon) && Spread(next.out, next.colon).Some?
    ensures Proper(g) && Body(g) == Body(f) + s && Spread(next.out, next.colon) == Some(Value(g))
  {
    hide Values, HexNumber, HexValue, Spread, Parse4, Body, Value, Dotted;
    var octets := Parse4(st.tok).value;
    DottedExactly(st.tok, octets);
    EndRecovered(f, next, Quad(octets));
    g := f.(end := Quad(octets));
    BodyEnd(f, Quad(octets), s);
  }

  lemma BodyEnd(f: Form, e: End, s: string)
    requires f.end.Last? && (e.Quad? ==> |e.octets| == 4) && EndText(e) == f.end.digits + s
    ensures Body(f.(end := e)) == Body(f) + s
  {
    hide Listed, Dotted;
    var middle := if f.mark then ":" + Listed(f.back) else "";
    assert Listed(f.front) + (middle + (f.end.digits + s)) == Listed(f.front) + (middle + f.end.digits) + s;
  }

  lemma GrownOnce(f: Form, st: Scan, c: char, rest: string)
    requires Follows(f, st) && ColonInside(st)
    requires st.tok == f.end.digits + ([c] + rest) && Step6(c, rest, st).Scan?
    ensures var (g, next) := (Grown(f, c), Step6(c, rest, st));
            && Follows(g, next) && g.end.Last? && next.tok == g.end.digits + rest
            && ColonInside(next) && Body(g) == Body(f) + [c]
  {
    hide Step6, Body;
    StepKinds(c, rest, st);
    FollowsKept(f, st);
    GrownFollows(f, st, c, rest);
    GrownBody(f, c);
  }

  /** Whatever the reader accepts from here on completes the form. */
  lemma {:induction false} Recover(s: string, f: Form, st: Scan) returns (g: Form)
    requires Follows(f, st) && ColonInside(st) && st.tok == f.end.digits + s
    requires ColonInside(Run6(s, st)) && Finish6(Run6(s, st)).Some?
    ensures Proper(g) && Body(g) == Body(f) + s && Finish6(Run6(s, st)) == Some(Value(g))
    decreases |s|
  {
    hide *;
    FollowsKept(f, st);
    if s == "" {
      RunEnd(st);
      StopRecovered(f, st);
      g := f.(end := Stopped(f));
    } else {
      var (c, rest) := (s[0], s[1..]);
      assert s == [c] + rest;
      RunStep(c, rest, st);
      var next := Step6(c, rest, st);
      StepKinds(c, rest, st);
      EndedStays(rest, next);
      if next.Scan? {
        GrownOnce(f, st, c, rest);
        g := Recover(rest, Grown(f, c), next);
        assert Body(f) + [c] + rest == Body(f) + s;
      } else {
        FinishCases(next);
        g := QuadRecovered(f, st, s, next);
      }
    }
  }

  lemma StoppedBody(f: Form)
    requires f.end.Last?
    ensures Body(f.(end := Stopped(f))) == Body(f) + ""
  {
    hide Listed;
  }

  /** What a step can lead to. */
  lemma StepKinds(c: char, rest: string, st: Scan)
    requires st.Scan? && ColonInside(st)
    ensures var next := Step6(c, rest, st);
            && ColonInside(next)
            && (next.Scan? ==> c == ':' || HexValue(c).Some?)
            && (next.Scan? && c == ':' && st.seen == 0 ==> st.colon < 0)
            && (next.Ended? ==>
                  Parse4(st.tok).Some? && next == Ended(st.out + Parse4(st.tok).value, st.colon))
  {
    assert HexValue(':').None?;
    hide HexValue, Parse4, Pair;
  }

  lemma FollowsKept(f: Form, st: Scan)
    requires Follows(f, st)
    ensures st.Scan? && f.end.Last? && (!f.mark ==> f.back == []) && st.seen == |f.end.digits|
    ensures st.colon < 0 ==> !f.mark
  {
  }

  // ------------------------------------------------------------------- the theorem

  lemma FirstColon(f: Form)
    requires Proper(f)
    ensures Body(f) != "" && Body(f)[0] == ':' <==> f.mark && f.front == []
  {
    if f.front != [] {
      var tail := ListedFirst(f.front);
      var first := f.front[0];
      assert first in f.front && Group(first) && first[0] in first;
      hide Listed, Dotted;
      assert Body(f)[0] == first[0];
      assert HexValue(':').None?;
    }
  }

  lemma {:induction false} ListedFirst(ts: seq<string>) returns (tail: string)
    requires ts != []
    ensures Listed(ts) == ts[0] + tail
  {
    if |ts| == 1 {
      tail := ":";
      assert ts[..0] == [];
    } else {
      var front := ts[..|ts| - 1];
      var t := ListedFirst(front);
      tail := t + ts[|ts| - 1] + ":";
      assert Listed(ts) == ts[0] + tail;
    }
  }

  ghost predicate Spelled(s: string, bs: seq<Byte>) {
    exists f :: Proper(f) && Text(f) == s && Value(f) == bs
  }

  /** The reader accepts exactly the texts of proper forms, with their values. */
  lemma AcceptedExactly(s: string, bs: seq<Byte>)
    ensures Parse6(s) == Some(bs) <==> Spelled(s, bs)
  {
    if Parse6(s) == Some(bs) { AcceptedIsSpelled(s, bs); }
    if Spelled(s, bs) {
      var f :| Proper(f) && Text(f) == s && Value(f) == bs;
      SpelledIsAccepted(f);
    }
  }

  lemma SpelledIsAccepted(f: Form)
    requires Proper(f)
    ensures Parse6(Text(f)) == Some(Value(f))
  {
    BodyRead(f);
    FirstColon(f);
    hide Run6, Finish6, Body, Value, Proper;
    if f.mark && f.front == [] {
      assert (":" + Body(f))[1..] == Body(f);
    } else {
      assert "" + Body(f) == Body(f);
    }
  }

  lemma AcceptedIsSpelled(s: string, bs: seq<Byte>)
    requires Parse6(s) == Some(bs)
    ensures Spelled(s, bs)
  {
    hide *;
    var leading := s != "" && s[0] == ':';
    var text := if leading then s[1..] else s;
    ParseText(s);
    var f := BodyRecovered(text);
    FirstColon(f);
    TextSpelled(f);
    assert s == (if leading then ":" else "") + text;
  }

  lemma TextSpelled(f: Form)
    requires Proper(f)
    ensures Spelled((if f.mark && f.front == [] then ":" else "") + Body(f), Value(f))
  {
    hide Body, Value;
    assert Text(f) == (if f.mark && f.front == [] then ":" else "") + Body(f);
  }

  lemma ParseText(s: string)
    requires Parse6(s).Some?
    ensures
      var leading := s != "" && s[0] == ':';
      var text := if leading then s[1..] else s;
      && (leading ==> text != "" && text[0] == ':')
      && ColonInside(Run6(text, Start6(text))) && Parse6(s) == Finish6(Run6(text, Start6(text)))
  {
    hide Run6, Finish6;
    var text := if s != "" && s[0] == ':' then s[1..] else s;
    RunColon(text, Start6(text));
  }

  lemma BodyRecovered(text: string) returns (f: Form)
    requires ColonInside(Run6(text, Start6(text))) && Finish6(Run6(text, Start6(text))).Some?
    ensures Proper(f) && Body(f) == text && Finish6(Run6(text, Start6(text))) == Some(Value(f))
  {
    var empty := Form([], false, [], Last(""));
    assert Follows(empty, Start6(text)) && Body(empty) == "";
    hide *;
    assert "" + text == text;
    f := Recover(text, empty, Start6(text));
  }

  /** A colon behind the last of eight groups is accepted too, though no address is
      written that way. */
  lemma TrailingColon(ts: seq<string>)
    requires AllGroups(ts) && |ts| == 8
    ensures Parse6(Listed(ts)) == Some(Values(ts))
  {
    var f := Form(ts, false, [], Nothing);
    SpelledIsAccepted(f);
    hide Listed, Values;
    assert Text(f) == Listed(ts) && Value(f) == Values(ts);
  }

  // ------------------------------------------------------------- what is written

  function Hexes(ws: seq<Word>): (r: seq<string>)
    ensures |r| == |ws|
  {
    if ws == [] then [] else Hexes(ws[..|ws| - 1]) + [Hex(ws[|ws| - 1])]
  }

  lemma {:induction false} HexesListed(ws: seq<Word>)
    ensures AllGroups(Hexes(ws)) && Listed(Hexes(ws)) == Groups(ws)
  {
    hide Hex;
    if ws != [] {
      var front := ws[..|ws| - 1];
      HexesListed(front);
      HexChars(ws[|ws| - 1]);
      MoreListed(Hexes(front), Hex(ws[|ws| - 1]));
    }
  }

  /** The form of a canonical text: the run of zeros is left out, and nothing else is. */
  function FormOf(w: Words, base: int, len: int): Form
    requires base == -1 || ZeroRun(w, base, len)
  {
    if base == -1 then Form(Hexes(w[..7]), false, [], Last(Hex(w[7])))
    else if Embedded(w, base, len) then Form(Hexes(w[..base]), true, Hexes(w[len..6]), Quad(Bytes(w[6..])))
    else if base + len == 8 then Form(Hexes(w[..base]), true, [], Nothing)
    else Form(Hexes(w[..base]), true, Hexes(w[base + len..7]), Last(Hex(w[7])))
  }

  /** So many groups stand in front of the double colon, and all others behind it. */
  lemma CanonicalForm(w: Words, base: int, len: int)
    requires base == -1 || ZeroRun(w, base, len)
    ensures
      var f := FormOf(w, base, len);
      && Proper(f) && Text(f) == Canonical(w, base, len)
      && (f.mark <==> base != -1) && (f.mark ==> |f.front| == base && Size(f) == 16 - 2 * len)
  {
    if base == -1 { WholeForm(w); } else { MarkedForm(w, base, len); }
  }

  lemma WholeForm(w: Words)
    ensures var f := FormOf(w, -1, 0); Proper(f) && Text(f) == Canonical(w, -1, 0)
  {
    hide Hex, Dotted, Bytes, Groups, Listed, Values;
    HexChars(w[7]);
    HexesListed(w[..7]);
    JoinedSplit(w);
    assert w[..|w| - 1] == w[..7];
    assert "" + (Groups(w[..7]) + ("" + Hex(w[7]))) == Groups(w[..7]) + Hex(w[7]);
  }

  lemma MarkedForm(w: Words, base: int, len: int)
    requires ZeroRun(w, base, len)
    ensures
      var f := FormOf(w, base, len);
      Proper(f) && Text(f) == Canonical(w, base, len) && f.mark && |f.front| == base && Size(f) == 16 - 2 * len
  {
    FrontForm(w, base, len);
    BackForm(w, base, len);
    var f := FormOf(w, base, len);
    hide Hex, Dotted, Bytes, Groups, Listed, Values, Tail, Joined, EndText;
    Together(Joined(w[..base]), if base == 0 then ":" else "", Listed(f.front), Listed(f.back), EndText(f.end));
  }

  lemma Together(front: string, colon: string, l: string, b: string, e: string)
    requires front + "::" == colon + (l + ":")
    ensures front + "::" + (b + e) == colon + (l + ((":" + b) + e))
  {
    assert colon + (l + ":") + (b + e) == colon + (l + ((":" + b) + e));
  }

  /** The groups in front and the double colon. */
  lemma FrontForm(w: Words, base: int, len: int)
    requires ZeroRun(w, base, len)
    ensures AllGroups(Hexes(w[..base]))
    ensures Joined(w[..base]) + "::" ==
            (if base == 0 then ":" else "") + (Listed(Hexes(w[..base])) + ":")
  {
    hide Hex;
    var front := w[..base];
    HexesListed(front);
    if base > 0 {
      GroupsColon(front);
      hide Groups, Joined, Listed;
      assert Joined(front) + "::" == Joined(front) + ":" + ":";
    }
  }

  lemma BackForm(w: Words, base: int, len: int)
    requires ZeroRun(w, base, len)
    ensures
      var f := FormOf(w, base, len);
      && AllGroups(f.back) && (f.end.Last? ==> Group(f.end.digits)) && (f.end.Quad? ==> |f.end.octets| == 4)
      && Listed(f.back) + EndText(f.end) == Tail(w, base, len)
  {
    hide Hex, Dotted, Bytes, Groups, Listed;
    HexChars(w[7]);
    if Embedded(w, base, len) {
      HexesListed(w[len..6]);
    } else if base + len == 8 {
      NoneListed();
      JoinedNone(w[8..]);
    } else {
      HexesListed(w[base + len..7]);
      JoinedSplit(w[base + len..]);
      assert w[base + len..][..8 - base - len - 1] == w[base + len..7];
    }
  }

  lemma NoneListed()
    ensures Listed([]) == ""
  {
  }

  /** The two bytes of a group, high byte first. */
  lemma {:induction false} ValuesAre(ts: seq<string>, k: nat)
    requires AllGroups(ts) && k < |ts|
    ensures 0x100 * (Values(ts)[2 * k] as int) + Values(ts)[2 * k + 1] as int == HexNumber(ts[k])
  {
    var front := ts[..|ts| - 1];
    assert forall t <- front :: t in ts;
    if k < |ts| - 1 {
      ValuesAre(front, k);
      assert front[k] == ts[k];
    } else {
      assert ts[k] in ts;
      GroupBelow(ts[k]);
    }
  }

  lemma GroupBelow(t: string)
    requires Group(t)
    ensures HexNumber(t) < 0x1_0000
  {
    NumberBelow(t);
    assert Power(16, 2) == 256 && Power(16, 4) == 256 * Power(16, 2);
    if |t| < 4 { assert Power(16, 3) == 16 * Power(16, 2) && Power(16, 1) == 16 * Power(16, 0); }
  }

  lemma {:induction false} NumberBelow(t: string)
    ensures HexNumber(t) < Power(16, |t|)
  {
    if t != "" {
      NumberBelow(t[..|t| - 1]);
      assert Nibble(t[|t| - 1]) < 16;
    }
  }
}
