/** The additive feedback generator over a circular array, with exchangeable state. */
module RandomSpec {
  import opened Basics

  type Word = x: int | 0 <= x < 0x1_0000_0000_0000_0000

  const WORD: int := 0x1_0000_0000_0000_0000
  const M: int := 0x7fff_ffff

  const MAX_TYPES := 5

  function Degree(t: nat): nat {
    if t == 1 then 7 else if t == 2 then 15 else if t == 3 then 31 else if t == 4 then 63 else 0
  }

  function Separation(t: nat): nat {
    if t == 1 then 3 else if t == 2 then 1 else if t == 3 then 3 else if t == 4 then 1 else 0
  }

  // ------------------------------------------------------------------- seeding

  function TruncDiv(a: int, b: int): int
    requires b > 0
  {
    if a >= 0 then a / b else -((-a) / b)
  }

  /** 16807 x modulo 2^31 - 1 without leaving 31 bits: 2^31 - 1 = 127773 * 16807 + 2836. */
  function GoodRand(x: int): int {
    var hi := TruncDiv(x, 127773);
    var lo := x - 127773 * hi;
    var y := 16807 * lo - 2836 * hi;
    if y <= 0 then y + 0x7fff_ffff else y
  }

  /** For every seed of 32 bits the result is the product modulo 2^31 - 1, taken from
      1 to 2^31 - 1; the upper end stands for zero. */
  lemma GoodRandIsProduct(x: int)
    requires 0 <= x < 0x1_0000_0000
    ensures 1 <= GoodRand(x) <= M
    ensures GoodRand(x) % M == 16807 * x % M
    ensures GoodRand(x) == M <==> x % M == 0
  {
    var (hi, lo) := (x / 127773, x % 127773);
    assert x == 127773 * hi + lo;
    var y := 16807 * lo - 2836 * hi;
    assert 16807 * x == y + M * hi;
    var g := GoodRand(x);
    var k := if y <= 0 then hi - 1 else hi;
    assert 16807 * x == g + M * k;
    Remainder(16807 * x, M, k, g);
    if x % M == 0 {
      assert 16807 * x == M * (16807 * (x / M));
      Remainder(16807 * x, M, 16807 * (x / M), 0);
    }
    if g == M { ProductZero(x); }
  }

  lemma Remainder(a: int, m: int, k: int, r: int)
    requires m > 0 && a == m * k + r
    ensures a % m == r % m
  {
    var q := r / m;
    assert r == m * q + r % m;
    assert a == m * (k + q) + r % m by { Distribute(m, k, q); }
    Division(a, m, k + q, r % m);
  }

  /** 16807 has the inverse 1407677000 modulo 2^31 - 1. */
  lemma ProductZero(x: int)
    requires 16807 * x % M == 0
    ensures x % M == 0
  {
    var p := 16807 * x / M;
    assert 16807 * x == M * p;
    assert 16807 * 1407677000 == 11017 * M + 1;
    assert x == M * (1407677000 * p - 11017 * x);
    Remainder(x, M, 1407677000 * p - 11017 * x, 0);
  }

  /** The seeds: a geometric sequence modulo 2^31 - 1. */
  function Seed(x: int, i: nat): int {
    if i == 0 then x else GoodRand(Seed(x, i - 1))
  }

  function Power(i: nat): int {
    if i == 0 then 1 else 16807 * Power(i - 1)
  }

  lemma {:induction false} SeedIsPower(x: int, i: nat)
    requires 0 <= x < 0x1_0000_0000
    ensures Seed(x, i) % M == Power(i) * x % M
    ensures 0 <= Seed(x, i) < 0x1_0000_0000 && (i > 0 ==> 1 <= Seed(x, i) <= M)
  {
    if i > 0 {
      SeedIsPower(x, i - 1);
      var (s, p) := (Seed(x, i - 1), Power(i - 1) * x);
      GoodRandIsProduct(s);
      TimesModulo(s, p);
      assert Power(i) * x == 16807 * p;
    }
  }

  lemma TimesModulo(a: int, b: int)
    requires a % M == b % M
    ensures 16807 * a % M == 16807 * b % M
  {
    var k := a / M - b / M;
    assert a == b + M * k;
    assert 16807 * a == M * (16807 * k) + 16807 * b;
    Remainder(16807 * a, M, 16807 * k, 16807 * b);
  }

  // ------------------------------------------------- the recurrence and its window

  function Sum(a: int, b: int): Word {
    (a + b) % WORD
  }

  /** The last `deg` values, oldest first, after one more. */
  function Next(v: seq<Word>, sep: nat): (r: seq<Word>)
    requires 0 < sep < |v|
    ensures |r| == |v|
  {
    v[1..] + [Sum(v[0], v[|v| - sep])]
  }

  function Iterate(v: seq<Word>, sep: nat, n: nat): (r: seq<Word>)
    requires 0 < sep < |v|
    ensures |r| == |v|
  {
    if n == 0 then v else Next(Iterate(v, sep, n - 1), sep)
  }

  /** The sequence o(k) = o(k - deg) + o(k - sep), continued from `deg` given values. */
  function Term(v: seq<Word>, sep: nat, k: nat): Word
    requires 0 < sep < |v|
  {
    if k < |v| then v[k] else Sum(Term(v, sep, k - |v|), Term(v, sep, k - sep))
  }

  /** After n steps the window shows the terms from n on. */
  lemma {:induction false} WindowIsTerms(v: seq<Word>, sep: nat, n: nat, j: nat)
    requires 0 < sep < |v| && j < |v|
    ensures Iterate(v, sep, n)[j] == Term(v, sep, n + j)
    decreases n, j
  {
    if n > 0 {
      var w := Iterate(v, sep, n - 1);
      if j < |v| - 1 {
        WindowIsTerms(v, sep, n - 1, j + 1);
      } else {
        WindowIsTerms(v, sep, n - 1, 0);
        WindowIsTerms(v, sep, n - 1, |v| - sep);
        assert n + j - |v| == n - 1 && n + j - sep == (n - 1) + (|v| - sep);
      }
    }
  }

  /** The four generators: x^7 + x^3 + 1, x^15 + x + 1, x^31 + x^3 + 1 and x^63 + x + 1. */
  lemma Recurrence(t: nat, v: seq<Word>, k: nat)
    requires 1 <= t <= 4 && |v| == Degree(t) && k >= |v|
    ensures t == 1 ==> |v| == 7 && Term(v, Separation(t), k) == (Term(v, 3, k - 7) + Term(v, 3, k - 3)) % 0x1_0000_0000_0000_0000
    ensures t == 2 ==> |v| == 15 && Term(v, Separation(t), k) == (Term(v, 1, k - 15) + Term(v, 1, k - 1)) % 0x1_0000_0000_0000_0000
    ensures t == 3 ==> |v| == 31 && Term(v, Separation(t), k) == (Term(v, 3, k - 31) + Term(v, 3, k - 3)) % 0x1_0000_0000_0000_0000
    ensures t == 4 ==> |v| == 63 && Term(v, Separation(t), k) == (Term(v, 1, k - 63) + Term(v, 1, k - 1)) % 0x1_0000_0000_0000_0000
  {
  }

  /** A word is its lowest bit, the 31 bits handed out, and the 32 bits above. */
  lemma HandedBits(w: Word) returns (high: nat, low: nat)
    ensures low < 2 && high < 0x1_0000_0000 && w as int == 0x1_0000_0000 * high + 2 * Handed(w) + low
  {
    high, low := w / 2 / 0x8000_0000, w % 2;
  }

  /** The bits of a word that are handed out: 1 to 31. */
  function Handed(w: Word): (r: int)
    ensures 0 <= r <= M
  {
    w / 2 % 0x8000_0000
  }
}

module Random {
  import opened Basics
  import opened RandomSpec

  /** Position `a`, less than two turns, on a circle of `deg` places. */
  function Wrap(a: nat, deg: nat): nat {
    if a >= deg then a - deg else a
  }

  /** The circle read once round from place `f`. */
  ghost function Ring(t: seq<Word>, deg: nat, f: nat): (v: seq<Word>)
    requires |t| > deg > f
    ensures |v| == deg
  {
    seq(deg, j requires 0 <= j < deg => t[1 + Wrap(f + j, deg)])
  }

  /** What a table shows, given its type and rear position. */
  ghost function Window(t: seq<Word>, kind: nat, rear: nat): (v: seq<Word>)
    requires kind < MAX_TYPES && |t| > Degree(kind) && |t| > 1 && (kind > 0 ==> rear < Degree(kind))
    ensures |v| == if kind == 0 then 1 else Degree(kind)
  {
    if kind == 0 then [t[1]] else Ring(t, Degree(kind), Wrap(rear + Separation(kind), Degree(kind)))
  }

  /** The rear pointer follows the front pointer at distance `sep`: adding in place and
      moving both on is one step of the recurrence. */
  lemma RingStep(t: seq<Word>, deg: nat, sep: nat, r: nat)
    requires |t| > deg > r && 0 < sep < deg
    ensures
      var f := Wrap(r + sep, deg);
      var w := Ring(t[1 + f := Sum(t[1 + f], t[1 + r])], deg, Wrap(f + 1, deg));
      w == Next(Ring(t, deg, f), sep) && w[deg - 1] == Sum(t[1 + f], t[1 + r])
  {
    hide Sum;
    var f := Wrap(r + sep, deg);
    var (v, f') := (Ring(t, deg, f), Wrap(f + 1, deg));
    var t' := t[1 + f := Sum(t[1 + f], t[1 + r])];
    var (w, n) := (Ring(t', deg, f'), Next(v, sep));
    assert Wrap(f + 0, deg) == f;
    assert v[0] == t[1 + f] && v[deg - sep] == t[1 + Wrap(f + (deg - sep), deg)];
    assert Wrap(f + (deg - sep), deg) == r;
    forall j | 0 <= j < deg ensures w[j] == n[j] {
      assert w[j] == t'[1 + Wrap(f' + j, deg)];
      if j < deg - 1 {
        assert Wrap(f' + j, deg) == Wrap(f + (j + 1), deg) != f;
        assert n[j] == v[j + 1] == t[1 + Wrap(f + (j + 1), deg)];
      } else {
        assert Wrap(f' + j, deg) == f;
      }
    }
  }

  /** The window over freshly seeded places: from place `sep` on, once round. */
  function Seeded(x: int, kind: nat): (v: seq<Word>)
    requires 0 < kind < MAX_TYPES && 0 <= x < 0x1_0000_0000
    ensures |v| == Degree(kind)
  {
    seq<Word>(Degree(kind), j requires 0 <= j < Degree(kind) =>
      SeedWord(x, Wrap(Separation(kind) + j, Degree(kind))))
  }

  function SeedWord(x: int, i: nat): Word
    requires 0 <= x < 0x1_0000_0000
  {
    SeedIsPower(x, i);
    Seed(x, i)
  }

  lemma SeededRing(t: seq<Word>, x: int, kind: nat)
    requires 0 < kind < MAX_TYPES && 0 <= x < 0x1_0000_0000 && |t| > Degree(kind)
    requires forall i | 0 <= i < Degree(kind) :: t[1 + i] == Seed(x, i)
    ensures Ring(t, Degree(kind), Separation(kind)) == Seeded(x, kind)
  {
    hide Seed;
    var (deg, sep) := (Degree(kind), Separation(kind));
    forall j | 0 <= j < deg ensures Ring(t, deg, sep)[j] == Seeded(x, kind)[j] {
      assert t[1 + Wrap(sep + j, deg)] == SeedWord(x, Wrap(sep + j, deg));
    }
  }

  lemma IterateNone(v: seq<Word>, sep: nat)
    requires 0 < sep < |v|
    ensures Iterate(v, sep, 0) == v
  {
  }

  lemma IterateOne(v: seq<Word>, sep: nat, n: nat)
    requires 0 < sep < |v|
    ensures Iterate(v, sep, n + 1) == Next(Iterate(v, sep, n), sep)
  {
  }

  lemma RoundTurn(i: nat, deg: nat)
    requires deg > 0
    ensures Wrap(i % deg + 1, deg) == (i + 1) % deg
  {
    var q := i / deg;
    assert i == deg * q + i % deg;
    if i % deg + 1 < deg {
      Division(i + 1, deg, q, i % deg + 1);
    } else {
      Distribute(deg, q, 1);
      Division(i + 1, deg, q + 1, 0);
    }
  }

  class Generator {
    /** Word 0 of the table is for saving; the state proper starts at word 1. */
    var table: array<Word>
    var randType: nat
    var fptr: nat
    var rptr: nat
    var srandCalled: bool

    ghost predicate Valid()
      reads this
    {
      && randType < MAX_TYPES && table.Length > 1 && table.Length > Degree(randType)
      && (randType > 0 ==>
            rptr < Degree(randType) && fptr == Wrap(rptr + Separation(randType), Degree(randType)))
    }

    /** The values that decide what comes, oldest first. */
    ghost function View(): seq<Word>
      requires Valid()
      reads this, table
    {
      Window(table[..], randType, rptr)
    }

    /** One value of the generator, 31 bits. */
    method Draw() returns (i: int)
      requires Valid()
      modifies this`fptr, this`rptr, table
      ensures Valid() && table[0] == old(table[0])
      ensures randType > 0 ==>
                && View() == Next(old(View()), Separation(randType))
                && i == Handed(View()[Degree(randType) - 1])
                && rptr == Wrap(old(rptr) + 1, Degree(randType))
      ensures randType == 0 ==> View() == [Masked(old(View())[0])] && i == Masked(old(View())[0]) && rptr == old(rptr)
    {
      hide Sum, Handed, Masked, Ring, Next;
      if randType == 0 {
        i := Masked(table[1]);
        table[1] := i;
      } else {
        i := Turn(Degree(randType), Separation(randType));
      }
    }

    method Turn(deg: nat, sep: nat) returns (i: int)
      requires table.Length > deg > rptr && 0 < sep < deg && fptr == Wrap(rptr + sep, deg)
      modifies this`fptr, this`rptr, table
      ensures rptr == Wrap(old(rptr) + 1, deg) && fptr == Wrap(rptr + sep, deg) && fptr < deg
      ensures Ring(table[..], deg, fptr) == Next(old(Ring(table[..], deg, fptr)), sep)
      ensures i == Handed(Ring(table[..], deg, fptr)[deg - 1]) && table[0] == old(table[0])
    {
      hide Sum, Handed, Ring, Next;
      ghost var t := table[..];
      RingStep(t, deg, sep, rptr);
      i := Advance(deg, sep);
      assert table[..][0] == t[0];
    }

    /** Seeds the state and runs it warm. The rear pointer ends where it began. */
    method Srand(x: Word)
      requires Valid() && x < 0x1_0000_0000
      modifies this`fptr, this`rptr, this`srandCalled, table
      ensures Valid() && srandCalled && table[0] == old(table[0])
      ensures randType == 0 ==> View() == [x]
      ensures randType > 0 ==>
                && rptr == 0
                && View() == Iterate(Seeded(x, randType), Separation(randType), 10 * Degree(randType))
    {
      srandCalled := true;
      table[1] := x;
      if randType > 0 {
        FillSeeds(x);
        fptr, rptr := Separation(randType), 0;
        hide Sum, Handed, Seed, Ring, Next, Iterate;
        SeededRing(table[..], x, randType);
        WarmUp();
      }
    }

    /** Ten values for each place are drawn and dropped: ten full turns. */
    method WarmUp()
      requires Valid() && randType > 0 && rptr == 0
      modifies this`fptr, this`rptr, table
      ensures Valid() && table[0] == old(table[0]) && rptr == 0
      ensures View() == Iterate(old(View()), Separation(randType), 10 * Degree(randType))
    {
      hide Sum, Handed, Window, Next, Iterate;
      ghost var v := View();
      IterateNone(v, Separation(randType));
      for i := 0 to 10 * Degree(randType)
        invariant Valid() && table[0] == old(table[0])
        invariant View() == Iterate(v, Separation(randType), i)
        invariant rptr == i % Degree(randType)
      {
        var dropped := Draw();
        IterateOne(v, Separation(randType), i);
        RoundTurn(i, Degree(randType));
      }
    }

    /** The linear congruential seeds, each from the one before. */
    method FillSeeds(x: Word)
      requires Valid() && randType > 0 && x < 0x1_0000_0000 && table[1] == x
      modifies table
      ensures table[0] == old(table[0])
      ensures forall i | 0 <= i < Degree(randType) :: table[1 + i] == Seed(x, i)
    {
      var i := 1;
      while i < Degree(randType)
        invariant 1 <= i <= Degree(randType) && table[0] == old(table[0])
        invariant forall k | 0 <= k < i :: table[1 + k] == Seed(x, k)
      {
        SeedIsPower(x, i);
        table[1 + i] := GoodRand(table[i]);
        i := i + 1;
      }
    }

    /** Adds the rear word to the front word and moves both pointers on. At most one of
        them wraps. */
    method Advance(deg: nat, sep: nat) returns (i: int)
      requires table.Length > deg > rptr && 0 < sep < deg && fptr == Wrap(rptr + sep, deg)
      modifies this`fptr, this`rptr, table
      ensures table[..] == old(table[..][1 + fptr := Sum(table[1 + fptr], table[1 + rptr])])
      ensures fptr == Wrap(old(fptr) + 1, deg) == Wrap(rptr + sep, deg) && rptr == Wrap(old(rptr) + 1, deg)
      ensures i == Handed(old(Sum(table[1 + fptr], table[1 + rptr])))
    {
      var f, r := fptr, rptr;
      table[1 + f] := Sum(table[1 + f], table[1 + r]);
      i := Handed(table[1 + f]);
      f := f + 1;
      if f >= deg {
        f := 0;
        r := r + 1;
      } else {
        r := r + 1;
        if r >= deg { r := 0; }
      }
      fptr, rptr := f, r;
    }

    /** Saves type and rear position in word 0, in front of the state. */
    method SaveCurrent()
      requires Valid()
      modifies table
      ensures Valid() && table[0] == Code(randType, rptr) && View() == old(View())
      ensures Saved(table[..]) && Kept(table[..]) == old(View())
      ensures forall k | 1 <= k < table.Length :: table[k] == old(table[k])
    {
      hide Ring;
      SameRing(table[..], table[..][0 := Code(randType, rptr)], randType, rptr);
      DecodedCode(randType, rptr);
      table[0] := if randType == 0 then 0 else MAX_TYPES * rptr + randType;
      assert table[..] == old(table[..])[0 := Code(randType, rptr)];
    }

    /** Saves the current state and starts a new one in the given array; the number of
        bytes decides on the type. */
    method InitState(seed: Word, arg: array<Word>, n: int) returns (ostate: array?<Word>)
      requires Valid() && (n >= 8 ==> Fits(arg.Length, n))
      modifies this, table, arg
      ensures Valid()
      ensures n < 8 ==> ostate == null && table == old(table) && randType == old(randType) && View() == old(View())
      ensures n >= 8 ==> ostate == old(table) && table == arg && randType == TypeFor(n) && srandCalled
      ensures n >= 8 && arg != old(table) ==>
                Saved(old(table)[..]) && Kept(old(table)[..]) == old(View()) && old(table)[0] % MAX_TYPES == old(randType)
      ensures n >= 8 ==> Saved(table[..]) && Kept(table[..]) == View()
      ensures n >= 8 && TypeFor(n) > 0 ==> rptr == 0 && table[0] == Code(TypeFor(n), 0)
      ensures n >= 8 && TypeFor(n) > 0 ==>
                View() == Iterate(Seeded(seed % 0x1_0000_0000, TypeFor(n)), Separation(TypeFor(n)), 10 * Degree(TypeFor(n)))
    {
      hide Ring, Iterate, Seeded, Window;
      DecodedCode(randType, rptr);
      SaveCurrent();
      if n < 8 { return null; }
      ostate := table;
      ghost var t := table[..];
      Begin(arg, TypeFor(n));
      Srand(seed % 0x1_0000_0000);
      SaveCurrent();
      assert ostate != arg ==> ostate[..] == t;
    }

    method Begin(arg: array<Word>, kind: nat)
      requires kind < MAX_TYPES && arg.Length > 1 && arg.Length > Degree(kind)
      modifies this`table, this`randType, this`fptr, this`rptr
      ensures Valid() && table == arg && randType == kind
    {
      table, randType := arg, kind;
      fptr, rptr := Separation(kind), 0;
    }

    /** Changes to a saved state. Word 0 of the array is read before the current
        position is saved. */
    method SetState(arg: array<Word>) returns (ostate: array<Word>)
      requires Valid() && Saved(arg[..])
      modifies this`table, this`randType, this`fptr, this`rptr, table
      ensures Valid() && ostate == old(table) && table == arg && randType == old(arg[0]) % MAX_TYPES
      ensures arg != old(table) ==> arg[..] == old(arg[..]) && View() == old(Kept(arg[..]))
      ensures arg != old(table) ==>
                Saved(ostate[..]) && Kept(ostate[..]) == old(View()) && ostate[0] % MAX_TYPES == old(randType)
      ensures randType > 0 ==> rptr == old(arg[0]) / MAX_TYPES
      ensures arg != old(table) && randType > 0 ==> table[0] == Code(randType, rptr)
      ensures arg == old(table) && old(arg[0]) == Code(old(randType), old(rptr)) ==> View() == old(View())
      ensures arg == old(table) && old(randType) > 0 ==>
                (randType == old(randType) && rptr == old(rptr) <==> old(arg[0]) == Code(old(randType), old(rptr)))
    {
      hide Ring, Window, Code;
      var kind, rear := arg[0] % MAX_TYPES, arg[0] / MAX_TYPES;
      ostate := table;
      DecodedCode(randType, rptr);
      if randType > 0 { CodeDecides(arg[0], randType, rptr); }
      if kind > 0 { CodeDecides(arg[0], kind, rear); }
      ghost var a := arg[..];
      SaveCurrent();
      assert arg != ostate ==> arg[..] == a;
      Restore(arg, kind, rear);
    }

    method Restore(arg: array<Word>, kind: nat, rear: nat)
      requires kind < MAX_TYPES && arg.Length > 1 && arg.Length > Degree(kind) && (kind > 0 ==> rear < Degree(kind))
      modifies this`table, this`randType, this`fptr, this`rptr
      ensures Valid() && table == arg && randType == kind && View() == Window(arg[..], kind, rear)
      ensures rptr == if kind == 0 then old(rptr) else rear
    {
      hide Ring;
      table, randType := arg, kind;
      if kind != 0 {
        OneTurn(rear + Separation(kind), Degree(kind));
        rptr, fptr := rear, (rear + Separation(kind)) % Degree(kind);
      }
    }
  }

  /** A word read as a signed number, advanced and cut to 31 bits. */
  function Masked(w: Word): (r: Word)
  {
    GoodRand(if w < WORD / 2 then w else w - WORD) % 0x8000_0000
  }

  /** Type and rear position in one word. */
  function Code(kind: nat, rear: nat): (r: Word)
    requires kind < MAX_TYPES && (kind > 0 ==> rear < Degree(kind))
  {
    if kind == 0 then 0 else MAX_TYPES * rear + kind
  }

  lemma DecodedCode(kind: nat, rear: nat)
    requires kind < MAX_TYPES && (kind > 0 ==> rear < Degree(kind))
    ensures Code(kind, rear) % MAX_TYPES == kind && (kind > 0 ==> Code(kind, rear) / MAX_TYPES == rear)
    ensures Code(kind, rear) == if kind == 0 then 0 else 5 * rear + kind
  {
  }

  lemma CodeDecides(w: Word, kind: nat, rear: nat)
    requires 0 < kind < MAX_TYPES && rear < Degree(kind)
    ensures w == Code(kind, rear) <==> w % MAX_TYPES == kind && w / MAX_TYPES == rear
  {
  }

  lemma OneTurn(a: nat, deg: nat)
    requires 0 < deg && a < 2 * deg
    ensures a % deg == Wrap(a, deg)
  {
    if a >= deg { Division(a, deg, 1, a - deg); }
  }

  /** The array holds a state that can be gone back to. */
  predicate Saved(t: seq<Word>) {
    && |t| > 1 && |t| > Degree(t[0] % MAX_TYPES)
    && (t[0] % MAX_TYPES > 0 ==> t[0] / MAX_TYPES < Degree(t[0] % MAX_TYPES))
  }

  /** The values it will go on with, oldest first. */
  ghost function Kept(t: seq<Word>): seq<Word>
    requires Saved(t)
  {
    Window(t, t[0] % MAX_TYPES, t[0] / MAX_TYPES)
  }

  /** The largest type that the number of bytes is declared enough for. */
  function TypeFor(n: int): (kind: nat)
    ensures kind < MAX_TYPES
  {
    if n < 32 then 0 else if n < 64 then 1 else if n < 128 then 2 else if n < 256 then 3 else 4
  }

  /** Each break value is twice the one before: 32, 64, 128 and 256 bytes. */
  lemma BreakValues(n: nat, t: nat)
    requires n >= 8 && t <= 4
    ensures TypeFor(n) >= t <==> t == 0 || n >= 16 * Doubled(t)
  {
    assert Doubled(1) == 2 * Doubled(0) && Doubled(2) == 2 * Doubled(1);
    assert Doubled(3) == 2 * Doubled(2) && Doubled(4) == 2 * Doubled(3);
  }

  function Doubled(t: nat): nat {
    if t == 0 then 1 else 2 * Doubled(t - 1)
  }

  /** Are so many words enough for the type that `n` bytes select? */
  predicate Fits(words: nat, n: int) {
    words > 1 && words > Degree(TypeFor(n))
  }

  /** The break values are those for words of four bytes. Of eight-byte words, the
      declared number of bytes holds the state if and only if it is 16 to 31 or at
      least 512. */
  lemma BytesHoldState(n: nat)
    requires n >= 8
    ensures Fits(n / 8, n) <==> 16 <= n < 32 || n >= 512
  {
  }

  /** 32 bytes select a state of seven words and one for saving: 64 bytes. */
  lemma ThirtyTwoBytesShort()
    ensures TypeFor(32) == 1 && !Fits(32 / 8, 32) && !Fits(7, 32) && Fits(8, 32)
  {
  }

  /** Word 0 does not belong to the state. */
  lemma SameRing(t: seq<Word>, t': seq<Word>, kind: nat, rear: nat)
    requires kind < MAX_TYPES && |t| == |t'| > Degree(kind) && |t| > 1 && (kind > 0 ==> rear < Degree(kind))
    requires t[1..] == t'[1..]
    ensures Window(t, kind, rear) == Window(t', kind, rear)
  {
    if kind == 0 {
      assert t[1] == t[1..][0] && t'[1] == t'[1..][0];
    } else {
      var (deg, f) := (Degree(kind), Wrap(rear + Separation(kind), Degree(kind)));
      forall j | 0 <= j < deg ensures Ring(t, deg, f)[j] == Ring(t', deg, f)[j] {
        var k := 1 + Wrap(f + j, deg);
        assert t[k] == t[1..][k - 1] && t'[k] == t'[1..][k - 1];
      }
    }
  }

  /** Whatever happens in another array in between, going back resumes the old sequence. */
  method SwitchAndBack(g: Generator, seed: Word, other: array<Word>, n: int, draws: nat)
    requires g.Valid() && other != g.table && n >= 8 && Fits(other.Length, n)
    modifies g, g.table, other
    ensures g.Valid() && g.table == old(g.table) && g.randType == old(g.randType) && g.View() == old(g.View())
  {
    hide Ring, Window, Next, Iterate, Handed, Masked;
    ghost var home, v := g.table, g.View();
    var ostate := g.InitState(seed, other, n);
    for i := 0 to draws
      invariant g.Valid() && g.table == other && ostate == home
      invariant Saved(ostate[..]) && Kept(ostate[..]) == v && ostate[0] % MAX_TYPES == old(g.randType)
    {
      ghost var t := ostate[..];
      var dropped := g.Draw();
      assert ostate[..] == t;
    }
    var there := g.SetState(ostate);
  }

  /** The k-th of `n` numbers drawn shows the k-th term of the recurrence from the
      current state on. */
  method DrawMany(g: Generator, n: nat) returns (s: seq<int>)
    requires g.Valid() && g.randType > 0
    modifies g`fptr, g`rptr, g.table
    ensures g.Valid() && g.table[0] == old(g.table[0])
    ensures g.rptr == (old(g.rptr) + n) % Degree(g.randType)
    ensures g.View() == Iterate(old(g.View()), Separation(g.randType), n)
    ensures |s| == n
    ensures forall k | 0 <= k < n ::
              s[k] == Handed(Term(old(g.View()), Separation(g.randType), Degree(g.randType) + k))
  {
    hide Window, Next, Iterate, Term, Handed;
    ghost var (v, deg, sep) := (g.View(), Degree(g.randType), Separation(g.randType));
    s := [];
    IterateNone(v, sep);
    Division(g.rptr, deg, 0, g.rptr);
    for i := 0 to n
      invariant g.Valid() && g.table[0] == old(g.table[0])
      invariant g.rptr == (old(g.rptr) + i) % deg && g.View() == Iterate(v, sep, i) && |s| == i
      invariant forall k | 0 <= k < i :: s[k] == Handed(Term(v, sep, deg + k))
    {
      var x := g.Draw();
      IterateOne(v, sep, i);
      RoundTurn(old(g.rptr) + i, deg);
      WindowIsTerms(v, sep, i + 1, deg - 1);
      s := s + [x];
    }
  }

  /** Going to the state that is current already, `d` draws after word 0 was up to
      date: the position stays if and only if the draws were whole turns. Otherwise it
      falls back to where it was before the draws. */
  method StayAfterDraws(g: Generator, d: nat) returns (before: nat, after: nat)
    requires g.Valid() && g.randType > 0 && g.table[0] == Code(g.randType, g.rptr)
    modifies g, g.table
    ensures g.Valid() && g.table == old(g.table) && g.randType == old(g.randType)
    ensures before == (old(g.rptr) + d) % Degree(g.randType) && after == g.rptr == old(g.rptr)
    ensures before == after <==> d % Degree(g.randType) == 0
    ensures before == after ==> g.View() == Iterate(old(g.View()), Separation(g.randType), d)
  {
    hide Ring, Window, Next, Iterate, Handed, Term;
    var dropped := DrawMany(g, d);
    before := g.rptr;
    CodeDecides(g.table[0], g.randType, old(g.rptr));
    WholeTurns(old(g.rptr), d, Degree(g.randType));
    var ostate := g.SetState(g.table);
    after := g.rptr;
  }

  lemma WholeTurns(r: nat, d: nat, deg: nat)
    requires r < deg
    ensures (r + d) % deg == r <==> d % deg == 0
  {
    var q := (r + d) / deg;
    assert r + d == deg * q + (r + d) % deg;
    if (r + d) % deg == r { Division(d, deg, q, 0); }
    if d % deg == 0 { Division(r + d, deg, d / deg, r); }
  }

  /** Going to the state that is current already does not always stay there: after one
      draw word 0 is out of date, and the rear pointer falls back. */
  method StayingFallsBack(g: Generator, seed: Word, arg: array<Word>, n: int) returns (before: nat, after: nat)
    requires g.Valid() && n >= 32 && Fits(arg.Length, n)
    modifies g, g.table, arg
    ensures before == 1 && after == 0
  {
    hide Ring, Window, Next, Iterate, Handed, Masked, Seeded;
    var ostate := g.InitState(seed, arg, n);
    DecodedCode(TypeFor(n), 0);
    var dropped := g.Draw();
    before := g.rptr;
    CodeDecides(arg[0], TypeFor(n), 0);
    ostate := g.SetState(arg);
    after := g.rptr;
  }

  /** The place in the outcome range that a value of 31 bits stands for. */
  function Scaled(min: Word, max: Word, i: int): Word
    requires 0 <= i <= M
  {
    var span := (max - min + 1) % WORD;
    var range := if span == 0 then 0xffff_ffff else span;
    (min + i * range % WORD / M) % WORD
  }

  /** A range so wide that the product with the largest sample wraps around. */
  predicate Wide(min: Word, max: Word) {
    (max - min + 1) * M >= WORD
  }

  /** In a range that is not that wide, exactly the sample 0x7fffffff misses: it gives
      the number behind the maximum. In a wide one no sample does. */
  lemma ScaledInRange(min: Word, max: Word, i: int)
    requires min <= max && 0 <= i <= M
    ensures min <= Scaled(min, max, i) <= max <==> i < M || Wide(min, max)
    ensures i == M && !Wide(min, max) ==> Scaled(min, max, i) == (max + 1) % WORD
  {
    if Wide(min, max) { ScaledWide(min, max, i); } else { ScaledNarrow(min, max, i); }
  }

  lemma ScaledNarrow(min: Word, max: Word, i: int)
    requires min <= max && 0 <= i <= M && !Wide(min, max)
    ensures min <= Scaled(min, max, i) <= max <==> i < M
    ensures i == M ==> Scaled(min, max, i) == (max + 1) % WORD
  {
    var span := max - min + 1;
    assert span % WORD == span by { Division(span, WORD, 0, span); }
    TimesBelow(i, M, span);
    assert i * span % WORD == i * span by { Division(i * span, WORD, 0, i * span); }
    var q := i * span / M;
    if i < M {
      assert q < span by { QuotientBelow(i * span, M, span); }
    } else {
      Division(i * span, M, span, 0);
    }
  }

  lemma ScaledWide(min: Word, max: Word, i: int)
    requires min <= max && 0 <= i <= M && Wide(min, max)
    ensures min <= Scaled(min, max, i) <= max
  {
    var span := (max - min + 1) % WORD;
    var p := i * (if span == 0 then 0xffff_ffff else span) % WORD;
    QuotientBelow(p, M, max - min + 1);
    assert Scaled(min, max, i) == min + p / M;
  }

  /** Larger samples give larger numbers, from the minimum on. */
  lemma ScaledInOrder(min: Word, max: Word, i: int, j: int)
    requires min <= max && 0 <= i <= j < M && !Wide(min, max)
    ensures Scaled(min, max, 0) == min && Scaled(min, max, i) <= Scaled(min, max, j)
    ensures Scaled(min, max, i) - min == i * (max - min + 1) / M
  {
    NarrowIs(min, max, 0);
    NarrowIs(min, max, i);
    NarrowIs(min, max, j);
    hide Scaled;
    var span := max - min + 1;
    TimesOrder(i, j, span);
    TimesOrder(0, i, span);
    QuotientOrder(i * span, j * span, M);
    assert 0 * span == 0;
  }

  lemma NarrowIs(min: Word, max: Word, i: int)
    requires min <= max && 0 <= i < M && !Wide(min, max)
    ensures Scaled(min, max, i) == min + i * (max - min + 1) / M
  {
    var span := max - min + 1;
    assert span % WORD == span by { Division(span, WORD, 0, span); }
    TimesBelow(i, M, span);
    assert i * span % WORD == i * span by { Division(i * span, WORD, 0, i * span); }
    QuotientBelow(i * span, M, span);
  }

  lemma TimesOrder(i: int, j: int, span: int)
    requires 0 <= i <= j && span > 0
    ensures 0 <= i * span <= j * span
  {
  }

  lemma QuotientOrder(a: int, b: int, m: int)
    requires m > 0 && 0 <= a <= b
    ensures a / m <= b / m
  {
    var (p, q) := (a / m, b / m);
    assert a == m * p + a % m && b == m * q + b % m;
    if q < p { Distribute(m, p - q, q); }
  }

  /** The limits alone tell whether every sample keeps them. */
  lemma AlwaysInRange(min: Word, max: Word)
    requires min <= max
    ensures (forall i | 0 <= i <= M :: min <= Scaled(min, max, i) <= max) <==> Wide(min, max)
  {
    forall i | 0 <= i <= M ensures min <= Scaled(min, max, i) <= max <==> i < M || Wide(min, max) {
      ScaledInRange(min, max, i);
    }
    ScaledInRange(min, max, M);
    hide Scaled, Wide;
    assert min <= Scaled(min, max, M) <= max <==> Wide(min, max);
  }

  lemma TimesBelow(i: int, m: int, span: int)
    requires 0 <= i <= m && span > 0
    ensures 0 <= i * span <= span * m && (i < m ==> i * span < m * span)
  {
  }

  lemma QuotientBelow(a: int, m: int, k: int)
    requires m > 0 && 0 <= a < m * k
    ensures 0 <= a / m < k
  {
    var q := a / m;
    assert m * q + a % m == a;
    if q >= k { Distribute(m, q - k, k); }
  }

  /** The numbers that type 0 goes through: a seed that is a multiple of 2^31 - 1 stays
      with that number for ever, any other never comes to it. */
  function MaskedOften(x: Word, n: nat): Word {
    if n == 0 then x else Masked(MaskedOften(x, n - 1))
  }

  lemma {:induction false} MaskedMultiples(x: Word, n: nat)
    requires x < 0x1_0000_0000 && n > 0
    ensures 1 <= MaskedOften(x, n) <= M && (MaskedOften(x, n) == M <==> x % M == 0)
    decreases n
  {
    if n == 1 {
      assert MaskedOften(x, 0) == x;
      MaskedOnce(x);
    } else {
      MaskedMultiples(x, n - 1);
      MaskedOnce(MaskedOften(x, n - 1));
      SmallMultiple(MaskedOften(x, n - 1));
    }
  }

  lemma MaskedOnce(x: Word)
    requires x < 0x1_0000_0000
    ensures 1 <= Masked(x) <= M && (Masked(x) == M <==> x % M == 0)
  {
    GoodRandIsProduct(x);
    Division(GoodRand(x), 0x8000_0000, 0, GoodRand(x));
  }

  lemma SmallMultiple(y: int)
    requires 1 <= y <= M
    ensures y % M == 0 <==> y == M
  {
  }

  /** With type 0 the seed and the limits decide: the numbers all stay within the limits,
      unless the seed is a multiple of 2^31 - 1 and the range is not that wide; then none does. */
  method SeededRands(g: Generator, seed: Word, min: Word, max: Word, n: nat) returns (s: seq<Word>)
    requires g.Valid() && g.randType == 0 && seed < 0x1_0000_0000 && min <= max
    modifies g, g.table
    ensures g.Valid() && g.randType == 0 && |s| == n
    ensures forall k | 0 <= k < n :: min <= s[k] <= max <==> seed % M != 0 || Wide(min, max)
    ensures forall k | 0 <= k < n && seed % M == 0 && !Wide(min, max) :: s[k] == (max + 1) % WORD
  {
    hide Ring, Window, Iterate, Next, Handed, Masked, Scaled, Seeded, Wide, MaskedOften;
    g.Srand(seed);
    s := [];
    NoMask(seed);
    for k := 0 to n
      invariant g.Valid() && g.randType == 0 && g.srandCalled && g.table == old(g.table) && |s| == k
      invariant g.View() == [MaskedOften(seed, k)]
      invariant forall j | 0 <= j < k :: min <= s[j] <= max <==> seed % M != 0 || Wide(min, max)
      invariant forall j | 0 <= j < k && seed % M == 0 && !Wide(min, max) :: s[j] == (max + 1) % WORD
    {
      var r := Rand(g, min, max, 0);
      OneMask(seed, k);
      MaskedMultiples(seed, k + 1);
      ScaledInRange(min, max, MaskedOften(seed, k + 1));
      s := s + [r];
    }
  }

  lemma NoMask(x: Word)
    ensures MaskedOften(x, 0) == x
  {
  }

  lemma OneMask(x: Word, n: nat)
    ensures MaskedOften(x, n + 1) == Masked(MaskedOften(x, n))
  {
  }

  /** Seeded with 0, type 0 gives 1 as a number between 0 and 0, call after call. */
  method BeyondMaximum(g: Generator) returns (first: Word, second: Word)
    requires g.Valid() && g.randType == 0
    modifies g, g.table
    ensures first == second == 1
  {
    var s := SeededRands(g, 0, 0, 0, 2);
    first, second := s[0], s[1];
  }

  /** A number from the generator; the first call seeds it from the clock if nobody has. */
  method Rand(g: Generator, min: Word, max: Word, clock: Word) returns (r: Word)
    requires g.Valid()
    modifies g, g.table
    ensures g.Valid() && g.srandCalled && g.table == old(g.table) && g.randType == old(g.randType)
    ensures g.randType > 0 ==> r == Scaled(min, max, Handed(g.View()[Degree(g.randType) - 1]))
    ensures g.randType == 0 ==>
              && g.View() == [Masked(if old(g.srandCalled) then old(g.View())[0] else clock % 0x1_0000_0000)]
              && r == Scaled(min, max, g.View()[0])
    ensures old(g.srandCalled) && g.randType > 0 ==> g.View() == Next(old(g.View()), Separation(g.randType))
    ensures !old(g.srandCalled) && g.randType > 0 ==>
              g.View() == Iterate(Seeded(clock % 0x1_0000_0000, g.randType), Separation(g.randType), 10 * Degree(g.randType) + 1)
  {
    hide Ring, Window, Iterate, Next, Handed, Masked, Scaled, Seeded;
    if !g.srandCalled { g.Srand(clock % 0x1_0000_0000); }
    MaskedRange();
    ghost var v := Seeded(clock % 0x1_0000_0000, if g.randType > 0 then g.randType else 1);
    IterateOne(v, Separation(if g.randType > 0 then g.randType else 1), 10 * |v|);
    var i := g.Draw();
    r := Scaled(min, max, i);
  }

  lemma MaskedRange()
    ensures forall w: Word :: 0 <= Masked(w) <= M
  {
  }
}
