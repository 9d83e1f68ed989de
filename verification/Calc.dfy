/** The expression evaluator: a token list that is reduced in place, against the
    grammar it implements. Numbers and the seven operations are parameters. */
module CalcGrammar {
  import opened Basics

  type Value(==)

  /** In the order in which they bind, tightest first. */
  datatype Op = ShiftLeft | ShiftRight | Power | Multiply | Divide | Plus | Minus

  /** How a number is read and what an operator does. */
  datatype Machine = Machine(atof: string -> Value, apply: (Op, Value, Value) -> Value)

  /** Values with an operator between each two. */
  datatype Chain = One(v: Value) | Link(v: Value, op: Op, rest: Chain)

  function OpAt(level: nat): Op
    requires 1 <= level <= 7
  {
    match level
    case 1 => ShiftLeft
    case 2 => ShiftRight
    case 3 => Power
    case 4 => Multiply
    case 5 => Divide
    case 6 => Plus
    case _ => Minus
  }

  function Level(op: Op): (level: nat)
    ensures 1 <= level <= 7 && OpAt(level) == op
  {
    match op
    case ShiftLeft => 1
    case ShiftRight => 2
    case Power => 3
    case Multiply => 4
    case Divide => 5
    case Plus => 6
    case Minus => 7
  }

  function Length(c: Chain): nat {
    if c.One? then 1 else 1 + Length(c.rest)
  }

  function Joined(l: Chain, op: Op, r: Chain): Chain {
    if l.One? then Link(l.v, op, r) else Link(l.v, l.op, Joined(l.rest, op, r))
  }

  predicate Has(c: Chain, op: Op) {
    c.Link? && (c.op == op || Has(c.rest, op))
  }

  /** What is in front of the last `op`, and what is behind it. */
  function Before(c: Chain, op: Op): (l: Chain)
    requires Has(c, op)
    ensures Length(l) < Length(c)
  {
    if Has(c.rest, op) then Link(c.v, c.op, Before(c.rest, op)) else One(c.v)
  }

  function After(c: Chain, op: Op): (r: Chain)
    requires Has(c, op)
    ensures Length(r) < Length(c)
  {
    if Has(c.rest, op) then After(c.rest, op) else c.rest
  }

  /** The grammar, level by level, each level grouping to the left:
      an expression of level k is one of level k, the operator and one of level
      k - 1, or just one of level k - 1. */
  function Eval(m: Machine, level: nat, c: Chain): Value
    requires level <= 7
    decreases level, Length(c)
  {
    if level == 0 then c.v
    else
      var op := OpAt(level);
      if Has(c, op) then m.apply(op, Eval(m, level, Before(c, op)), Eval(m, level - 1, After(c, op)))
      else Eval(m, level - 1, c)
  }

  // --------------------------------------------------------- passes over chains

  function Starting(c: Chain, v: Value): (r: Chain)
    ensures Length(r) == Length(c)
  {
    c.(v := v)
  }

  /** All operators `op` carried out, from left to right. */
  function Merged(m: Machine, op: Op, c: Chain): (r: Chain)
    ensures Length(r) <= Length(c)
    decreases Length(c)
  {
    if c.One? then c
    else if c.op == op then Merged(m, op, Starting(c.rest, m.apply(op, c.v, c.rest.v)))
    else Link(c.v, c.op, Merged(m, op, c.rest))
  }

  function Passes(m: Machine, level: nat, c: Chain): Chain
    requires level <= 7
  {
    if level == 0 then c else Merged(m, OpAt(level), Passes(m, level - 1, c))
  }

  lemma {:induction false} Apart(c: Chain, op: Op)
    requires Has(c, op)
    ensures c == Joined(Before(c, op), op, After(c, op)) && !Has(After(c, op), op)
  {
    if Has(c.rest, op) { Apart(c.rest, op); }
  }

  lemma {:induction false} HasJoined(l: Chain, op: Op, r: Chain, o: Op)
    ensures Has(Joined(l, op, r), o) <==> o == op || Has(l, o) || Has(r, o)
  {
    if l.Link? { HasJoined(l.rest, op, r, o); }
  }

  /** A pass for another operator works on both sides on its own. */
  lemma {:induction false} MergedJoined(m: Machine, op: Op, l: Chain, o: Op, r: Chain)
    requires o != op
    ensures Merged(m, op, Joined(l, o, r)) == Joined(Merged(m, op, l), o, Merged(m, op, r))
    decreases Length(l)
  {
    if l.Link? {
      if l.op == op {
        var l' := Starting(l.rest, m.apply(op, l.v, l.rest.v));
        MergedJoined(m, op, l', o, r);
        JoinedFirst(l.rest, o, r, l'.v);
      } else {
        MergedJoined(m, op, l.rest, o, r);
      }
    }
  }

  lemma JoinedFirst(l: Chain, o: Op, r: Chain, v: Value)
    ensures Starting(Joined(l, o, r), v) == Joined(Starting(l, v), o, r)
    ensures Joined(l, o, r).v == l.v
  {
  }

  lemma {:induction false} PassesJoined(m: Machine, level: nat, l: Chain, o: Op, r: Chain)
    requires level <= 7 && Level(o) > level
    ensures Passes(m, level, Joined(l, o, r)) == Joined(Passes(m, level, l), o, Passes(m, level, r))
  {
    if level > 0 {
      PassesJoined(m, level - 1, l, o, r);
      MergedJoined(m, OpAt(level), Passes(m, level - 1, l), o, Passes(m, level - 1, r));
    }
  }

  /** One more operand at the end of a chain that merges to a single value. */
  lemma {:induction false} MergedSnoc(m: Machine, op: Op, l: Chain, v: Value)
    requires Merged(m, op, l).One?
    ensures Merged(m, op, Joined(l, op, One(v))) == One(m.apply(op, Merged(m, op, l).v, v))
    decreases Length(l)
  {
    if l.Link? {
      var l' := Starting(l.rest, m.apply(op, l.v, l.rest.v));
      MergedSnoc(m, op, l', v);
      JoinedFirst(l.rest, op, One(v), l'.v);
    }
  }

  ghost predicate Within(c: Chain, level: nat) {
    forall o | Level(o) > level :: !Has(c, o)
  }

  lemma ZeroWithin(c: Chain)
    ensures c.Link? ==> !Within(c, 0)
  {
    if c.Link? { assert Level(c.op) > 0 && Has(c, c.op); }
  }

  /** Passes up to a level evaluate a chain without looser operators as the grammar does. */
  lemma {:induction false} PassesEvaluate(m: Machine, level: nat, c: Chain)
    requires level <= 7 && Within(c, level)
    ensures Passes(m, level, c) == One(Eval(m, level, c))
    decreases level, Length(c)
  {
    if level == 0 {
      ZeroWithin(c);
    } else {
      var op := OpAt(level);
      if Has(c, op) {
        var (l, r) := (Before(c, op), After(c, op));
        Apart(c, op);
        forall o | Level(o) > level ensures !Has(l, o) && !Has(r, o) { HasJoined(l, op, r, o); }
        assert Within(r, level - 1);
        PassesEvaluate(m, level, l);
        PassesEvaluate(m, level - 1, r);
        PassesJoined(m, level - 1, l, op, r);
        MergedSnoc(m, op, Passes(m, level - 1, l), Eval(m, level - 1, r));
      } else {
        PassesEvaluate(m, level - 1, c);
      }
    }
  }

  /** All seven passes leave the value that the grammar gives. */
  lemma SevenPasses(m: Machine, c: Chain)
    ensures Passes(m, 7, c) == One(Eval(m, 7, c))
  {
    PassesEvaluate(m, 7, c);
  }

  // ------------------------------------------------------------- which binds first

  /** Levels whose operators do not occur make no difference. */
  lemma {:induction false} LevelsSkipped(m: Machine, low: nat, high: nat, c: Chain)
    requires low <= high <= 7 && forall k | low < k <= high :: !Has(c, OpAt(k))
    ensures Eval(m, high, c) == Eval(m, low, c)
    decreases high
  {
    if low < high { LevelsSkipped(m, low, high - 1, c); }
  }

  lemma NoneInOne(v: Value)
    ensures forall op :: !Has(One(v), op)
  {
  }

  lemma OneEvaluates(m: Machine, level: nat, v: Value)
    requires level <= 7
    ensures Eval(m, level, One(v)) == v
  {
    NoneInOne(v);
    LevelsSkipped(m, 0, level, One(v));
  }

  lemma OneOperator(m: Machine, level: nat, x: Value, op: Op, y: Value)
    requires Level(op) <= level <= 7
    ensures Eval(m, level, Link(x, op, One(y))) == m.apply(op, x, y)
  {
    var c := Link(x, op, One(y));
    NoneInOne(y);
    forall k | Level(op) < k <= level ensures !Has(c, OpAt(k)) { LevelOnce(op, k); }
    LevelsSkipped(m, Level(op), level, c);
    OneEvaluates(m, Level(op), x);
    OneEvaluates(m, Level(op) - 1, y);
  }

  lemma LevelOnce(op: Op, k: nat)
    requires 1 <= k <= 7 && k != Level(op)
    ensures OpAt(k) != op
  {
  }

  /** Shifts to the left bind tightest, then shifts to the right, powers, products,
      quotients, sums and differences; operators of one kind group to the left. */
  lemma BindingOrder(m: Machine, i: nat, j: nat, x: Value, y: Value, z: Value)
    requires i <= j < 7
    ensures
      var order := [ShiftLeft, ShiftRight, Power, Multiply, Divide, Plus, Minus];
      var (tight, loose) := (order[i], order[j]);
      && Eval(m, 7, Link(x, tight, Link(y, loose, One(z)))) == m.apply(loose, m.apply(tight, x, y), z)
      && (i < j ==> Eval(m, 7, Link(x, loose, Link(y, tight, One(z)))) == m.apply(loose, x, m.apply(tight, y, z)))
  {
    var order := [ShiftLeft, ShiftRight, Power, Multiply, Divide, Plus, Minus];
    assert Level(order[i]) == i + 1 && Level(order[j]) == j + 1;
    TwoOperators(m, order[i], order[j], x, y, z);
  }

  lemma ThreeValues(x: Value, a: Op, y: Value, b: Op, z: Value)
    ensures
      var c := Link(x, a, Link(y, b, One(z)));
      && (forall op :: Has(c, op) <==> op == a || op == b)
      && Before(c, b) == Link(x, a, One(y)) && After(c, b) == One(z)
      && (a != b ==> Before(c, a) == One(x) && After(c, a) == Link(y, b, One(z)))
  {
    var (r, e) := (Link(y, b, One(z)), One(z));
    assert forall op :: !Has(e, op);
    assert forall op :: Has(r, op) <==> op == b;
    assert Before(r, b) == One(y) && After(r, b) == e;
  }

  lemma TwoOperators(m: Machine, tight: Op, loose: Op, x: Value, y: Value, z: Value)
    requires Level(tight) <= Level(loose)
    ensures Eval(m, 7, Link(x, tight, Link(y, loose, One(z)))) == m.apply(loose, m.apply(tight, x, y), z)
    ensures tight != loose ==>
              Eval(m, 7, Link(x, loose, Link(y, tight, One(z)))) == m.apply(loose, x, m.apply(tight, y, z))
  {
    var (c, d, l) := (Link(x, tight, Link(y, loose, One(z))), Link(x, loose, Link(y, tight, One(z))), Level(loose));
    ThreeValues(x, tight, y, loose, z);
    ThreeValues(x, loose, y, tight, z);
    hide Has, Before, After;
    forall k | l < k <= 7 ensures !Has(c, OpAt(k)) && !Has(d, OpAt(k)) {
      LevelOnce(tight, k);
      LevelOnce(loose, k);
    }
    LevelsSkipped(m, l, 7, c);
    LevelsSkipped(m, l, 7, d);
    OneEvaluates(m, l - 1, z);
    OneEvaluates(m, l, x);
    OneOperator(m, l, x, tight, y);
    if tight != loose { OneOperator(m, l - 1, y, tight, z); }
    EvalIs(m, l, c);
    EvalIs(m, l, d);
  }

  lemma EvalIs(m: Machine, level: nat, c: Chain)
    requires 0 < level <= 7
    ensures Eval(m, level, c) ==
            var op := OpAt(level);
            if Has(c, op) then m.apply(op, Eval(m, level, Before(c, op)), Eval(m, level - 1, After(c, op)))
            else Eval(m, level - 1, c)
  {
    hide Has, Before, After;
  }

  // ---------------------------------------------------------------- token lists

  datatype Token = Val(value: Value) | Operator(op: Op)

  function Flat(c: Chain): (r: seq<Token>)
    ensures |r| > 0 && r[0] == Val(c.v)
  {
    if c.One? then [Val(c.v)] else [Val(c.v), Operator(c.op)] + Flat(c.rest)
  }

  /** The position of the first operator `op` from position `i` on. */
  function FirstAt(list: seq<Token>, op: Op, i: nat): (r: nat)
    requires i <= |list|
    ensures i <= r <= |list|
    ensures forall k | i <= k < r :: list[k] != Operator(op)
    ensures r < |list| ==> list[r] == Operator(op)
    decreases |list| - i
  {
    if i == |list| || list[i] == Operator(op) then i else FirstAt(list, op, i + 1)
  }

  /** One reduction: the two operands and the operator at `i` become one value. */
  predicate Reducible(list: seq<Token>, i: nat) {
    0 < i < |list| - 1 && list[i].Operator? && list[i - 1].Val? && list[i + 1].Val?
  }

  function Reduced(m: Machine, list: seq<Token>, i: nat): (r: seq<Token>)
    requires Reducible(list, i)
    ensures |r| == |list| - 2
  {
    list[..i - 1] + [Val(m.apply(list[i].op, list[i - 1].value, list[i + 1].value))] + list[i + 2..]
  }

  /** Always the first operator `op` next, until there is none or one lacks an operand. */
  function Pass(m: Machine, op: Op, list: seq<Token>): Option<seq<Token>>
    decreases |list|
  {
    var i := FirstAt(list, op, 0);
    if i == |list| then Some(list)
    else if Reducible(list, i) then Pass(m, op, Reduced(m, list, i))
    else None
  }

  lemma FirstIs(list: seq<Token>, op: Op, i: nat, p: nat)
    requires p <= i <= |list| && (i < |list| ==> list[i] == Operator(op))
    requires forall k | p <= k < i :: list[k] != Operator(op)
    ensures FirstAt(list, op, p) == i
  {
  }

  /** An operator without a right operand, or nothing. */
  predicate Tail(t: seq<Token>) {
    t == [] || (|t| == 1 && t[0].Operator?)
  }

  lemma PassStep(m: Machine, op: Op, list: seq<Token>, i: nat)
    requires i <= |list| && (i < |list| ==> list[i] == Operator(op))
    requires forall k | 0 <= k < i :: list[k] != Operator(op)
    ensures Pass(m, op, list) ==
            if i == |list| then Some(list)
            else if Reducible(list, i) then Pass(m, op, Reduced(m, list, i))
            else None
  {
    FirstIs(list, op, i, 0);
  }

  lemma FlatLink(c: Chain)
    ensures c.One? ==> Flat(c) == [Val(c.v)]
    ensures c.Link? ==> Flat(c) == [Val(c.v), Operator(c.op)] + Flat(c.rest)
  {
  }

  lemma MergedStep(m: Machine, op: Op, c: Chain)
    ensures c.One? ==> Merged(m, op, c) == c
    ensures c.Link? && c.op == op ==>
              Merged(m, op, c) == Merged(m, op, Starting(c.rest, m.apply(op, c.v, c.rest.v)))
    ensures c.Link? && c.op != op ==> Merged(m, op, c) == Link(c.v, c.op, Merged(m, op, c.rest))
  {
  }

  lemma TailOperator(t: seq<Token>)
    requires Tail(t) && t != []
    ensures exists o :: t == [Operator(o)]
  {
    assert t == [Operator(t[0].op)];
  }

  /** A pass over a well-formed list, with what has been scanned already in front. */
  lemma {:induction false} PassFlat(m: Machine, op: Op, done: seq<Token>, c: Chain, t: seq<Token>)
    requires Operator(op) !in done && Tail(t)
    ensures Pass(m, op, done + Flat(c) + t) ==
            if t == [Operator(op)] then None else Some(done + Flat(Merged(m, op, c)) + t)
    decreases Length(c)
  {
    hide Flat, Merged, Pass;
    FlatLink(c);
    MergedStep(m, op, c);
    if c.One? {
      PassEnd(m, op, done, c.v, t);
    } else if c.op == op {
      PassReduces(m, op, done, c, t);
      PassFlat(m, op, done, Starting(c.rest, m.apply(op, c.v, c.rest.v)), t);
    } else {
      var skipped := [Val(c.v), Operator(c.op)];
      PassFlat(m, op, done + skipped, c.rest, t);
      FlatLink(Merged(m, op, c));
      Regroup(done, skipped, Flat(c.rest), t);
      Regroup(done, skipped, Flat(Merged(m, op, c.rest)), t);
    }
  }

  lemma Regroup<T>(a: seq<T>, b: seq<T>, c: seq<T>, d: seq<T>)
    ensures a + (b + c) + d == a + b + c + d
  {
  }

  lemma PassEnd(m: Machine, op: Op, done: seq<Token>, v: Value, t: seq<Token>)
    requires Operator(op) !in done && Tail(t)
    ensures Pass(m, op, done + [Val(v)] + t) ==
            if t == [Operator(op)] then None else Some(done + [Val(v)] + t)
  {
    hide Pass;
    var list := done + [Val(v)] + t;
    PassStep(m, op, list, if t == [Operator(op)] then |list| - 1 else |list|);
  }

  lemma PassReduces(m: Machine, op: Op, done: seq<Token>, c: Chain, t: seq<Token>)
    requires Operator(op) !in done && c.Link? && c.op == op
    ensures Pass(m, op, done + Flat(c) + t) ==
            Pass(m, op, done + Flat(Starting(c.rest, m.apply(op, c.v, c.rest.v))) + t)
  {
    hide Pass, Flat;
    FlatLink(c);
    var (rest, v) := (Flat(c.rest), m.apply(op, c.v, c.rest.v));
    StartingFlat(c.rest, v);
    var list := done + ([Val(c.v), Operator(op)] + rest) + t;
    Pieces(done, Val(c.v), Operator(op), rest, t);
    assert forall k | 0 <= k <= |done| :: list[k] != Operator(op);
    PassStep(m, op, list, |done| + 1);
    assert Reduced(m, list, |done| + 1) == done + ([Val(v)] + rest[1..]) + t;
  }

  lemma Pieces<T>(done: seq<T>, x: T, y: T, rest: seq<T>, t: seq<T>)
    requires |rest| > 0
    ensures
      var (list, n) := (done + ([x, y] + rest) + t, |done|);
      && list[..n] == done && list[n] == x && list[n + 1] == y && list[n + 2] == rest[0]
      && list[n + 3..] == rest[1..] + t
      && forall k | 0 <= k < n :: list[k] == done[k]
  {
  }

  lemma StartingFlat(c: Chain, v: Value)
    ensures Flat(Starting(c, v)) == [Val(v)] + Flat(c)[1..]
  {
  }
}

/** Formulas as text. */
module CalcText {
  import opened Basics
  import opened CalcGrammar

  datatype Term = Num(text: string) | Group(body: Formula)

  datatype Formula = Last(t: Term) | More(t: Term, op: Op, rest: Formula)

  function OpText(op: Op): (r: string)
    ensures 1 <= |r| <= 2
  {
    match op
    case ShiftLeft => "<<"
    case ShiftRight => ">>"
    case Power => "^"
    case Multiply => "*"
    case Divide => "/"
    case Plus => "+"
    case Minus => "-"
  }

  function RenderTerm(t: Term): string {
    match t
    case Num(text) => text
    case Group(f) => "(" + Render(f) + ")"
  }

  function Render(f: Formula): string {
    match f
    case Last(t) => RenderTerm(t)
    case More(t, op, rest) => RenderTerm(t) + (OpText(op) + Render(rest))
  }

  /** The value of a formula: brackets first, then the levels of the grammar. */
  function TermValue(m: Machine, t: Term): Value {
    match t
    case Num(text) => m.atof(text)
    case Group(f) => Eval(m, 7, ChainOf(m, f))
  }

  function ChainOf(m: Machine, f: Formula): Chain {
    match f
    case Last(t) => One(TermValue(m, t))
    case More(t, op, rest) => Link(TermValue(m, t), op, ChainOf(m, rest))
  }

  // -------------------------------------------------------------------- numbers

  predicate NumChar(c: char) {
    '0' <= c <= '9' || c == '.'
  }

  function SignLength(s: string): nat {
    if s != "" && (s[0] == '-' || s[0] == '+') then 1 else 0
  }

  /** The end of the digits and dots that start at `i`. */
  function RunEnd(s: string, i: nat): (r: nat)
    requires i <= |s|
    ensures i <= r <= |s| && (forall k | i <= k < r :: NumChar(s[k])) && (r < |s| ==> !NumChar(s[r]))
    decreases |s| - i
  {
    if i < |s| && NumChar(s[i]) then RunEnd(s, i + 1) else i
  }

  function Dots(s: string): nat {
    if s == "" then 0 else Dots(s[..|s| - 1]) + if s[|s| - 1] == '.' then 1 else 0
  }

  const BUFFERSIZE := 64

  /** An optional sign, then digits with at most one dot, fewer than 64 characters in all. */
  function NumberLength(s: string): (r: Option<nat>)
    ensures r.Some? ==> 0 < r.value <= |s|
  {
    var start := SignLength(s);
    var n := RunEnd(s, start);
    if n == start || Dots(s[start..n]) > 1 || n >= BUFFERSIZE then None else Some(n)
  }

  predicate Numeral(t: string) {
    NumberLength(t) == Some(|t|)
  }

  predicate TermOk(t: Term) {
    match t
    case Num(text) => Numeral(text)
    case Group(f) => FormulaOk(f)
  }

  /** All numbers are numerals. */
  predicate FormulaOk(f: Formula) {
    match f
    case Last(t) => TermOk(t)
    case More(t, _, rest) => TermOk(t) && FormulaOk(rest)
  }

  predicate Stops(tail: string) {
    tail == "" || !NumChar(tail[0])
  }

  lemma RunEndIs(s: string, i: nat, r: nat)
    requires i <= r <= |s| && (forall k | i <= k < r :: NumChar(s[k])) && (r < |s| ==> !NumChar(s[r]))
    ensures RunEnd(s, i) == r
  {
  }

  lemma SliceFront(t: string, tail: string, i: nat)
    requires i <= |t|
    ensures (t + tail)[i..|t|] == t[i..|t|]
  {
  }

  lemma NumberStops(t: string, tail: string)
    requires Numeral(t) && Stops(tail)
    ensures NumberLength(t + tail) == Some(|t|)
  {
    var (s, start) := (t + tail, SignLength(t));
    assert s[0] == t[0] && SignLength(s) == start;
    assert forall k | start <= k < |t| :: NumChar(t[k]) && s[k] == t[k];
    assert tail != "" ==> s[|t|] == tail[0];
    RunEndIs(s, start, |t|);
    SliceFront(t, tail, start);
  }

  lemma SliceInner(s: string, i: nat, n: nat)
    requires i <= n <= |s|
    ensures s[..n][i..n] == s[i..n]
  {
  }

  lemma NumberPrefix(s: string, n: nat)
    requires NumberLength(s) == Some(n)
    ensures n <= |s| && Numeral(s[..n]) && Stops(s[n..])
  {
    var (t, start) := (s[..n], SignLength(s));
    assert SignLength(t) == start;
    RunEndIs(t, start, n);
    SliceInner(s, start, n);
  }

  // ------------------------------------------------------------------- brackets

  function Shifted(n: nat, r: Option<nat>): Option<nat> {
    if r.Some? then Some(n + r.value) else None
  }

  /** Where the bracket closes that leaves `depth` brackets open in front of `s`. */
  function Closing(s: string, depth: nat): (r: Option<nat>)
    requires depth > 0
    ensures r.Some? ==> r.value < |s| && s[r.value] == ')'
  {
    if s == "" then None
    else if s[0] == ')' && depth == 1 then Some(0)
    else Shifted(1, Closing(s[1..], if s[0] == '(' then depth + 1 else if s[0] == ')' then depth - 1 else depth))
  }

  lemma {:induction false} ClosingSkips(text: string, tail: string, depth: nat)
    requires depth > 0 && forall c <- text :: c != '(' && c != ')'
    ensures Closing(text + tail, depth) == Shifted(|text|, Closing(tail, depth))
    decreases |text|
  {
    if text == "" {
      assert text + tail == tail;
    } else {
      assert text[0] in text && forall c <- text[1..] :: c in text;
      ClosingSkips(text[1..], tail, depth);
      assert (text + tail)[0] == text[0] && (text + tail)[1..] == text[1..] + tail;
    }
  }

  lemma NumeralChars(t: string)
    requires Numeral(t)
    ensures forall c <- t :: c != '(' && c != ')'
  {
  }

  lemma RenderIs(f: Formula)
    ensures Render(f) == RenderTerm(f.t) + if f.Last? then "" else OpText(f.op) + Render(f.rest)
  {
  }

  lemma OpTextPlain(op: Op)
    ensures forall c <- OpText(op) :: c != '(' && c != ')'
    ensures Stops(OpText(op))
    ensures forall tail :: OpAtFront(OpText(op) + tail) == Some(op)
  {
  }

  lemma {:induction false} ClosingTerm(t: Term, tail: string, depth: nat)
    requires depth > 0 && TermOk(t)
    ensures Closing(RenderTerm(t) + tail, depth) == Shifted(|RenderTerm(t)|, Closing(tail, depth))
    decreases t
  {
    match t
    case Num(text) =>
      NumeralChars(text);
      ClosingSkips(text, tail, depth);
    case Group(f) =>
      var r := Render(f);
      var s := RenderTerm(t) + tail;
      assert s[0] == '(' && s[1..] == r + (")" + tail);
      ClosingFormula(f, ")" + tail, depth + 1);
      assert (")" + tail)[1..] == tail;
  }

  /** A formula closes every bracket that it opens, and no other. */
  lemma {:induction false} ClosingFormula(f: Formula, tail: string, depth: nat)
    requires depth > 0 && FormulaOk(f)
    ensures Closing(Render(f) + tail, depth) == Shifted(|Render(f)|, Closing(tail, depth))
    decreases f
  {
    RenderIs(f);
    hide Render, RenderTerm, Closing, OpText, TermOk;
    if f.Last? {
      assert RenderTerm(f.t) + "" == RenderTerm(f.t);
      ClosingTerm(f.t, tail, depth);
    } else {
      var (o, r) := (OpText(f.op), Render(f.rest));
      ClosingTerm(f.t, o + (r + tail), depth);
      OpTextPlain(f.op);
      ClosingSkips(o, r + tail, depth);
      ClosingFormula(f.rest, tail, depth);
      assert RenderTerm(f.t) + (o + r) + tail == RenderTerm(f.t) + (o + (r + tail));
    }
  }

  // -------------------------------------------------------------------- parsing

  datatype Parsed = Parsed(f: Formula) | SyntaxError | Undefined

  datatype TermRead = TermRead(t: Term, length: nat) | BadTerm | UndefinedTerm

  function OpAtFront(s: string): (r: Option<Op>)
    ensures r.Some? ==> OpText(r.value) <= s
  {
    if s == "" then None
    else if s[0] == '+' then Some(Plus)
    else if s[0] == '-' then Some(Minus)
    else if s[0] == '*' then Some(Multiply)
    else if s[0] == '/' then Some(Divide)
    else if s[0] == '^' then Some(Power)
    else if |s| > 1 && s[0] == '<' && s[1] == '<' then Some(ShiftLeft)
    else if |s| > 1 && s[0] == '>' && s[1] == '>' then Some(ShiftRight)
    else None
  }

  /** A number or a bracket at the front. A bracket that is never closed makes the
      reading go on behind the end of the text. */
  function ReadTerm(s: string): (r: TermRead)
    requires s != ""
    ensures r.TermRead? ==> 0 < r.length <= |s|
    decreases |s|, 0
  {
    if s[0] == '(' then
      var p := Closing(s[1..], 1);
      var inner := Parse(if p.Some? then s[1..1 + p.value] else s[1..]);
      if inner.SyntaxError? then BadTerm
      else if inner.Undefined? || p.None? then UndefinedTerm
      else TermRead(Group(inner.f), p.value + 2)
    else
      var n := NumberLength(s);
      if n.None? then BadTerm else TermRead(Num(s[..n.value]), n.value)
  }

  /** Terms with operators between them; an empty text has no value. */
  function Parse(s: string): Parsed
    decreases |s|, 1
  {
    if s == "" then Undefined
    else
      var t := ReadTerm(s);
      if t.BadTerm? then SyntaxError
      else if t.UndefinedTerm? then Undefined
      else AfterTerm(t.t, s[t.length..], |s|)
  }

  function AfterTerm(t: Term, s: string, bound: nat): Parsed
    requires |s| < bound
    decreases bound, 0, |s|
  {
    if s == "" then Parsed(Last(t))
    else
      var op := OpAtFront(s);
      if op.None? then SyntaxError
      else
        var rest := s[|OpText(op.value)|..];
        if rest == "" then SyntaxError
        else
          var r := Parse(rest);
          if r.Parsed? then Parsed(More(t, op.value, r.f)) else r
  }

  lemma ReadNumber(text: string, tail: string)
    requires Numeral(text) && Stops(tail)
    ensures text + tail != "" && ReadTerm(text + tail) == TermRead(Num(text), |text|)
  {
    NumberStops(text, tail);
    NumeralChars(text);
    hide NumberLength, Closing, Parse, NumChar;
    var s := text + tail;
    assert s[0] == text[0] && text[0] in text;
    assert s[..|text|] == text;
  }

  lemma {:induction false} ReadRendered(t: Term, tail: string)
    requires TermOk(t) && Stops(tail)
    ensures RenderTerm(t) + tail != "" && ReadTerm(RenderTerm(t) + tail) == TermRead(t, |RenderTerm(t)|)
    decreases t, 0
  {
    hide Closing, NumberLength, Parse, Render, NumChar;
    var s := RenderTerm(t) + tail;
    match t
    case Num(text) => ReadNumber(text, tail);
    case Group(f) =>
      var r := Render(f);
      assert s[0] == '(' && s[1..] == r + (")" + tail);
      ClosingFormula(f, ")" + tail, 1);
      ClosesAtOnce(tail);
      assert s[1..1 + |r|] == r;
      ParseRendered(f);
  }

  lemma ClosesAtOnce(tail: string)
    ensures Closing(")" + tail, 1) == Some(0)
  {
  }

  /** Every formula is read back from its text. */
  lemma {:induction false} ParseRendered(f: Formula)
    requires FormulaOk(f)
    ensures Parse(Render(f)) == Parsed(f)
    decreases f, 1
  {
    RenderIs(f);
    hide Render, RenderTerm, ReadTerm, OpText, OpAtFront, TermOk;
    var (s, n) := (Render(f), |RenderTerm(f.t)|);
    match f
    case Last(t) =>
      ReadRendered(t, "");
      assert RenderTerm(t) + "" == s && s[n..] == "";
    case More(t, op, rest) =>
      var tail := OpText(op) + Render(rest);
      OpTextPlain(op);
      ReadRendered(t, tail);
      assert s[n..] == tail;
      FormulaNotEmpty(rest);
      assert tail[|OpText(op)|..] == Render(rest);
      ParseRendered(rest);
  }

  lemma {:induction false} FormulaNotEmpty(f: Formula)
    requires FormulaOk(f)
    ensures Render(f) != ""
  {
    if f.t.Num? { assert Numeral(f.t.text); }
  }

  lemma ParseStep(s: string)
    requires s != ""
    ensures var t := ReadTerm(s);
            Parse(s) == if t.BadTerm? then SyntaxError
                        else if t.UndefinedTerm? then Undefined
                        else AfterTerm(t.t, s[t.length..], |s|)
  {
  }

  lemma {:induction false} ReadIsRendered(s: string)
    requires s != ""
    ensures var r := ReadTerm(s); r.TermRead? ==> TermOk(r.t) && RenderTerm(r.t) == s[..r.length]
    decreases |s|, 0
  {
    hide Closing, Parse, NumberLength, Render;
    if s[0] == '(' {
      var p := Closing(s[1..], 1);
      if p.Some? {
        ParsedIsRendered(s[1..1 + p.value]);
        assert s[..p.value + 2] == "(" + s[1..1 + p.value] + ")";
      }
    } else if NumberLength(s).Some? {
      NumberPrefix(s, NumberLength(s).value);
    }
  }

  /** Whatever is accepted is the text of a formula. */
  lemma {:induction false} ParsedIsRendered(s: string)
    ensures var r := Parse(s); r.Parsed? ==> FormulaOk(r.f) && Render(r.f) == s
    decreases |s|, 1
  {
    EmptyParse();
    if s != "" {
      ReadIsRendered(s);
      ParseStep(s);
      var t := ReadTerm(s);
      hide ReadTerm, Parse, Render, OpText, OpAtFront, RenderTerm, TermOk;
      if t.TermRead? {
        var rest := s[t.length..];
        var op := OpAtFront(rest);
        if rest == "" {
          LastRendered(t.t, s);
        } else if op.Some? {
          var more := rest[|OpText(op.value)|..];
          ParsedIsRendered(more);
          if Parse(more).Parsed? { MoreRendered(t.t, op.value, Parse(more).f, s, t.length); }
        }
      }
    }
  }

  lemma EmptyParse()
    ensures Parse("") == Undefined
  {
  }

  lemma MoreRendered(t: Term, op: Op, f: Formula, s: string, n: nat)
    requires n <= |s| && TermOk(t) && RenderTerm(t) == s[..n] && OpText(op) <= s[n..]
    requires FormulaOk(f) && Render(f) == s[n..][|OpText(op)|..]
    ensures FormulaOk(More(t, op, f)) && Render(More(t, op, f)) == s
  {
    RenderIs(More(t, op, f));
    hide RenderTerm, TermOk, Render, OpText;
    var rest := s[n..];
    assert rest == OpText(op) + rest[|OpText(op)|..];
    assert s == s[..n] + rest;
  }

  lemma LastRendered(t: Term, s: string)
    requires TermOk(t) && RenderTerm(t) == s[..|s|]
    ensures FormulaOk(Last(t)) && Render(Last(t)) == s
  {
    hide RenderTerm, TermOk;
  }

  // ------------------------------------------------------------- what is written how

  /** A numeral: perhaps a sign, then digits and at most one dot, less than 64 characters. */
  lemma NumeralExactly(t: string)
    ensures Numeral(t) <==>
            var body := if t != "" && (t[0] == '+' || t[0] == '-') then t[1..] else t;
            && body != "" && |t| < 64 && (forall c <- body :: '0' <= c <= '9' || c == '.')
            && (forall i, j | 0 <= i < j < |body| :: !(body[i] == '.' && body[j] == '.'))
  {
    var k := SignLength(t);
    var body := t[k..];
    OneDot(body);
    if forall c <- body :: NumChar(c) {
      assert forall i | k <= i < |t| :: t[i] == body[i - k];
      RunEndIs(t, k, |t|);
      assert t[k..|t|] == body;
    }
    if Numeral(t) {
      assert t[k..|t|] == body;
      forall c | c in body ensures NumChar(c) {
        var i :| 0 <= i < |body| && body[i] == c;
        assert t[k + i] == c;
      }
    }
    hide RunEnd, Dots;
  }

  lemma {:induction false} OneDot(s: string)
    ensures Dots(s) <= 1 <==> forall i, j | 0 <= i < j < |s| :: !(s[i] == '.' && s[j] == '.')
    ensures Dots(s) == 0 <==> forall i | 0 <= i < |s| :: s[i] != '.'
    decreases |s|
  {
    if s != "" {
      var front := s[..|s| - 1];
      OneDot(front);
      assert forall i | 0 <= i < |front| :: front[i] == s[i];
    }
  }

  lemma Digit12()
    ensures Numeral("1") && Numeral("2")
  {
    NumeralExactly("1");
    NumeralExactly("2");
  }

  lemma ReadsAs(op: Op, text: string)
    requires text == "1" + (OpText(op) + "2")
    ensures Parse(text) == Parsed(More(Num("1"), op, Last(Num("2"))))
  {
    Digit12();
    var f := More(Num("1"), op, Last(Num("2")));
    ParseRendered(f);
    hide Parse, Numeral;
    RenderIs(f);
    RenderIs(f.rest);
    hide Render;
    assert "2" + "" == "2";
    assert Render(f) == text;
  }

  /** The seven signs. */
  lemma Signs()
    ensures Parse("1<<2") == Parsed(More(Num("1"), ShiftLeft, Last(Num("2"))))
    ensures Parse("1>>2") == Parsed(More(Num("1"), ShiftRight, Last(Num("2"))))
    ensures Parse("1^2") == Parsed(More(Num("1"), Power, Last(Num("2"))))
    ensures Parse("1*2") == Parsed(More(Num("1"), Multiply, Last(Num("2"))))
    ensures Parse("1/2") == Parsed(More(Num("1"), Divide, Last(Num("2"))))
    ensures Parse("1+2") == Parsed(More(Num("1"), Plus, Last(Num("2"))))
    ensures Parse("1-2") == Parsed(More(Num("1"), Minus, Last(Num("2"))))
  {
    hide Parse;
    ReadsAs(ShiftLeft, "1<<2");
    ReadsAs(ShiftRight, "1>>2");
    ReadsAs(Power, "1^2");
    ReadsAs(Multiply, "1*2");
    ReadsAs(Divide, "1/2");
    ReadsAs(Plus, "1+2");
    ReadsAs(Minus, "1-2");
  }
}

module Calc {
  import opened Basics
  import opened CalcGrammar
  import opened CalcText

  /** Carries out all operators of one type in the list, and restarts the scan at
      the front after each. */
  method ResolveType(m: Machine, tokenlist: seq<Token>, op: Op) returns (r: Option<seq<Token>>)
    ensures r == Pass(m, op, tokenlist)
  {
    hide Pass;
    var list := tokenlist;
    var found := true;
    ghost var left := 2;
    while found
      invariant Pass(m, op, list) == Pass(m, op, tokenlist)
      invariant 0 <= left <= 2 && (left == 0 ==> !found)
      invariant left < 2 || found
      invariant left < 2 ==> FirstAt(list, op, 0) == |list|
      decreases left
    {
      found := false;
      var it := 0;
      while it < |list|
        invariant 0 <= it <= |list|
        invariant Pass(m, op, list) == Pass(m, op, tokenlist)
        invariant forall k | 0 <= k < it :: list[k] != Operator(op)
        invariant left < 2 ==> FirstAt(list, op, 0) == |list| && !found
        decreases |list|, |list| - it
      {
        if list[it] == Operator(op) {
          FirstIs(list, op, it, 0);
          PassStep(m, op, list, it);
          found := true;
          if it > 0 && it + 1 < |list| {
            if !list[it - 1].Val? || !list[it + 1].Val? { return None; }
            list := list[..it - 1] + [Val(m.apply(op, list[it - 1].value, list[it + 1].value))] + list[it + 2..];
          } else {
            return None;
          }
          it := 0;
        } else {
          it := it + 1;
        }
      }
      FirstIs(list, op, |list|, 0);
      left := left - 1;
    }
    PassStep(m, op, list, |list|);
    return Some(list);
  }

  /** A well-formed list reduces to the value of the grammar; an operator at the end
      is found out in its own pass. */
  method Resolve(m: Machine, tokens: seq<Token>, ghost c: Chain, ghost t: seq<Token>) returns (r: Option<Value>)
    requires tokens == Flat(c) + t && Tail(t)
    ensures r == if t == [] then Some(Eval(m, 7, c)) else None
  {
    hide Pass, Flat, Eval, Merged;
    var list := tokens;
    ghost var level := 0;
    assert [] + Flat(c) + t == list;
    var order := [ShiftLeft, ShiftRight, Power, Multiply, Divide, Plus, Minus];
    for i := 0 to 7
      invariant list == Flat(Passes(m, i, c)) + t
      invariant forall o | Level(o) <= i :: t != [Operator(o)]
    {
      var pass := ResolveType(m, list, order[i]);
      PassFlat(m, order[i], [], Passes(m, i, c), t);
      assert [] + Flat(Passes(m, i, c)) + t == list;
      if pass.None? { return None; }
      list := pass.value;
      assert order[i] == OpAt(i + 1);
      assert [] + Flat(Passes(m, i + 1, c)) + t == Flat(Passes(m, i + 1, c)) + t;
    }
    if t != [] {
      TailOperator(t);
      assert false;
    }
    SevenPasses(m, c);
    FlatLink(One(Eval(m, 7, c)));
    return Some(list[0].value);
  }

  /** Reads the number at the front of `s` into the buffer, which it never overruns. */
  method GetValue(m: Machine, s: string, buffer: array<char>) returns (r: Option<(Value, nat)>)
    requires s != "" && buffer.Length == BUFFERSIZE
    modifies buffer
    ensures r == match NumberLength(s)
                 case None => None
                 case Some(n) => Some((m.atof(s[..n]), n))
  {
    hide RunEnd, Dots, NumberLength;
    var bptr := 0;
    NumberLengthIs(s);
    if s[bptr] == '-' || s[bptr] == '+' {
      buffer[bptr] := s[bptr];
      bptr := bptr + 1;
    }
    if bptr == |s| || !NumChar(s[bptr]) { return None; }
    r := ScanNumber(m, s, bptr, buffer, RunEnd(s, SignLength(s)));
  }

  lemma NumberLengthIs(s: string)
    ensures
      var (start, n) := (SignLength(s), RunEnd(s, SignLength(s)));
      NumberLength(s) == if n == start || Dots(s[start..n]) > 1 || n >= BUFFERSIZE then None else Some(n)
    ensures RunEnd(s, SignLength(s)) == SignLength(s) <==> SignLength(s) == |s| || !NumChar(s[SignLength(s)])
  {
  }

  lemma {:induction false} DotsMonotone(s: string, k: nat)
    requires k <= |s|
    ensures Dots(s[..k]) <= Dots(s)
    decreases |s|
  {
    if k < |s| {
      DotsMonotone(s[..|s| - 1], k);
      assert s[..|s| - 1][..k] == s[..k];
    } else {
      assert s[..k] == s;
    }
  }

  lemma DotsNext(s: string, i: nat, k: nat, n: nat)
    requires i <= k < n <= |s|
    ensures Dots(s[i..k + 1]) == Dots(s[i..k]) + if s[k] == '.' then 1 else 0
    ensures Dots(s[i..k + 1]) <= Dots(s[i..n])
  {
    var t := s[i..k + 1];
    assert t[..|t| - 1] == s[i..k];
    DotsMonotone(s[i..n], k + 1 - i);
    assert s[i..n][..k + 1 - i] == t;
  }

  /** The digits and dots behind the sign. */
  method ScanNumber(m: Machine, s: string, start: nat, buffer: array<char>, ghost n: nat)
    returns (r: Option<(Value, nat)>)
    requires start == SignLength(s) && buffer.Length == BUFFERSIZE && buffer[..start] == s[..start]
    requires n == RunEnd(s, start) && n > start
    modifies buffer
    ensures r == if Dots(s[start..n]) > 1 || n >= BUFFERSIZE then None else Some((m.atof(s[..n]), n))
  {
    hide Dots, RunEnd;
    var bptr := start;
    var dots := 0;
    NoDots();
    assert s[start..start] == "";
    while bptr < |s|
      invariant start <= bptr <= n && bptr < BUFFERSIZE
      invariant buffer[..bptr] == s[..bptr]
      invariant dots == Dots(s[start..bptr]) <= 1
    {
      var c := s[bptr];
      if c < '0' || c > '9' {
        if c == '.' {
          DotsNext(s, start, bptr, n);
          dots := dots + 1;
          if dots > 1 { return None; }
        } else {
          break;
        }
      }
      DotsNext(s, start, bptr, n);
      buffer[bptr] := c;
      bptr := bptr + 1;
      if bptr >= BUFFERSIZE { return None; }
    }
    return Some((m.atof(buffer[..bptr]), bptr));
  }

  lemma NoDots()
    ensures Dots("") == 0
  {
  }

  /** The position of the bracket that closes, or the end of the text. */
  method FindClosingBracket(s: string) returns (p: nat)
    ensures p == match Closing(s, 1) case Some(k) => k case None => |s|
  {
    hide Closing;
    var count := 1;
    p := 0;
    assert s[0..] == s;
    while p < |s|
      invariant p <= |s| && count > 0
      invariant Closing(s, 1) == Shifted(p, Closing(s[p..], count))
    {
      ClosingStep(s[p..], count);
      assert s[p..][1..] == s[p + 1..];
      var c := s[p];
      if c == '(' {
        count := count + 1;
      } else if c == ')' {
        count := count - 1;
        if count == 0 { return; }
      }
      p := p + 1;
    }
    NothingCloses(count);
  }

  lemma ClosingStep(s: string, depth: nat)
    requires s != "" && depth > 0
    ensures Closing(s, depth) ==
            if s[0] == ')' && depth == 1 then Some(0)
            else Shifted(1, Closing(s[1..], if s[0] == '(' then depth + 1 else if s[0] == ')' then depth - 1 else depth))
  {
  }

  lemma NothingCloses(depth: nat)
    requires depth > 0
    ensures Closing("", depth) == None
  {
  }

  datatype Outcome = Result(value: Value) | Syntax | NoValue

  function Meaning(m: Machine, p: Parsed): Outcome {
    match p
    case Parsed(f) => Result(Eval(m, 7, ChainOf(m, f)))
    case SyntaxError => Syntax
    case Undefined => NoValue
  }

  /** Terms already read, each with the operator behind it, in front of what follows. */
  function Onto(done: seq<(Term, Op)>, p: Parsed): Parsed {
    if done == [] || !p.Parsed? then p
    else Onto(done[..|done| - 1], Parsed(More(done[|done| - 1].0, done[|done| - 1].1, p.f)))
  }

  function TokensOf(m: Machine, done: seq<(Term, Op)>): seq<Token> {
    if done == [] then []
    else TokensOf(m, done[..|done| - 1]) + [Val(TermValue(m, done[|done| - 1].0)), Operator(done[|done| - 1].1)]
  }

  /** What the rest of a text means after `done`: nothing left is only all right
      after a term. */
  function Remaining(done: seq<(Term, Op)>, s: string): Parsed {
    if s != "" then Onto(done, Parse(s)) else if done == [] then Undefined else SyntaxError
  }

  lemma OntoSnoc(done: seq<(Term, Op)>, t: Term, op: Op, p: Parsed)
    ensures Onto(done + [(t, op)], p) == Onto(done, if p.Parsed? then Parsed(More(t, op, p.f)) else p)
  {
    assert (done + [(t, op)])[..|done|] == done;
  }

  lemma {:induction false} OntoIsParsed(done: seq<(Term, Op)>, f: Formula)
    ensures Onto(done, Parsed(f)).Parsed?
    decreases |done|
  {
    if done != [] { OntoIsParsed(done[..|done| - 1], More(done[|done| - 1].0, done[|done| - 1].1, f)); }
  }

  /** The tokens of the terms in front and those of a formula are the tokens of the whole. */
  lemma {:induction false} TokensOnto(m: Machine, done: seq<(Term, Op)>, f: Formula)
    ensures Onto(done, Parsed(f)).Parsed?
    ensures TokensOf(m, done) + Flat(ChainOf(m, f)) == Flat(ChainOf(m, Onto(done, Parsed(f)).f))
    decreases |done|
  {
    OntoIsParsed(done, f);
    if done != [] {
      var (front, t, op) := (done[..|done| - 1], done[|done| - 1].0, done[|done| - 1].1);
      TokensOnto(m, front, More(t, op, f));
      var pair := [Val(TermValue(m, t)), Operator(op)];
      assert TokensOf(m, front) + (pair + Flat(ChainOf(m, f))) == (TokensOf(m, front) + pair) + Flat(ChainOf(m, f));
    }
  }

  /** Terms that end with an operator. */
  lemma TokensTail(m: Machine, done: seq<(Term, Op)>)
    requires done != []
    ensures
      var last := done[|done| - 1];
      var whole := Onto(done[..|done| - 1], Parsed(Last(last.0)));
      && whole.Parsed?
      && TokensOf(m, done) == Flat(ChainOf(m, whole.f)) + [Operator(last.1)]
  {
    var (front, t, op) := (done[..|done| - 1], done[|done| - 1].0, done[|done| - 1].1);
    TokensOnto(m, front, Last(t));
    assert Flat(ChainOf(m, Last(t))) == [Val(TermValue(m, t))];
    assert TokensOf(m, front) + [Val(TermValue(m, t))] + [Operator(op)]
        == TokensOf(m, front) + [Val(TermValue(m, t)), Operator(op)];
  }

  lemma TokensSnoc(m: Machine, done: seq<(Term, Op)>, t: Term, op: Op)
    ensures TokensOf(m, done + [(t, op)]) == TokensOf(m, done) + [Val(TermValue(m, t))] + [Operator(op)]
  {
    assert (done + [(t, op)])[..|done|] == done;
  }

  /** The step from one term to the next, seen from the whole text. */
  lemma RemainingStep(done: seq<(Term, Op)>, s: string)
    requires s != "" && ReadTerm(s).TermRead?
    ensures
      var (t, rest) := (ReadTerm(s).t, s[ReadTerm(s).length..]);
      && (rest == "" ==> Remaining(done, s) == Onto(done, Parsed(Last(t))))
      && (rest != "" && OpAtFront(rest).None? ==> Remaining(done, s) == Onto(done, SyntaxError))
      && (rest != "" && OpAtFront(rest).Some? ==>
            Remaining(done, s) == Remaining(done + [(t, OpAtFront(rest).value)], rest[|OpText(OpAtFront(rest).value)|..]))
  {
    hide ReadTerm, Parse, Onto, OpText, OpAtFront;
    ParseStep(s);
    var (t, rest) := (ReadTerm(s).t, s[ReadTerm(s).length..]);
    if rest != "" && OpAtFront(rest).Some? {
      var op := OpAtFront(rest).value;
      var more := rest[|OpText(op)|..];
      if more == "" { ErrorOnto(done, SyntaxError); } else { OntoSnoc(done, t, op, Parse(more)); }
    }
  }

  lemma ErrorOnto(done: seq<(Term, Op)>, p: Parsed)
    ensures !p.Parsed? ==> Onto(done, p) == p
  {
  }

  datatype Next = Next(value: Value, ptr: nat) | NextBad | NextUndefined

  function NextOf(m: Machine, t: TermRead, ptr: nat): Next {
    match t
    case TermRead(t, n) => Next(TermValue(m, t), ptr + n)
    case BadTerm => NextBad
    case UndefinedTerm => NextUndefined
  }

  /** The next value: a bracket, evaluated on its own, or a number. */
  method ReadValue(m: Machine, expression: string, ptr: nat, buffer: array<char>) returns (r: Next)
    requires ptr < |expression| && buffer.Length == BUFFERSIZE
    modifies buffer
    ensures r == NextOf(m, ReadTerm(expression[ptr..]), ptr)
    decreases |expression|, 0
  {
    hide Closing, NumberLength, Parse, Eval, ChainOf;
    ghost var s := expression[ptr..];
    if expression[ptr] == '(' {
      var text := expression[ptr + 1..];
      assert s[1..] == text;
      var lastbracket := FindClosingBracket(text);
      assert text[..|text|] == text && s[1..1 + lastbracket] == text[..lastbracket];
      var inner := Tokenize(m, text[..lastbracket], buffer);
      if inner.Syntax? { return NextBad; }
      if inner.NoValue? || ptr + lastbracket + 2 > |expression| { return NextUndefined; }
      return Next(inner.value, ptr + lastbracket + 2);
    } else {
      var v := GetValue(m, expression[ptr..], buffer);
      if v.None? { return NextBad; }
      return Next(v.value.0, ptr + v.value.1);
    }
  }

  /** Splits the text into values and operators, bracket by bracket, and reduces the list. */
  method Tokenize(m: Machine, expression: string, buffer: array<char>) returns (r: Outcome)
    requires buffer.Length == BUFFERSIZE
    modifies buffer
    ensures r == Meaning(m, Parse(expression))
    decreases |expression|, 1
  {
    hide ReadTerm, Parse, Onto, TokensOf, OpText, OpAtFront, ChainOf, Flat, Eval, TermValue;
    var ptr := 0;
    var tokenlist: seq<Token> := [];
    ghost var done: seq<(Term, Op)> := [];
    ghost var last: Option<Term> := None;
    Fresh(m, expression);
    while ptr < |expression|
      invariant ptr <= |expression| && tokenlist == TokensOf(m, done)
      invariant Parse(expression) == Remaining(done, expression[ptr..])
    {
      ghost var s := expression[ptr..];
      ParseStep(s);
      ErrorOnto(done, Parse(s));
      var next := ReadValue(m, expression, ptr, buffer);
      if next.NextBad? { return Syntax; }
      if next.NextUndefined? { return NoValue; }
      RemainingStep(done, s);
      ErrorOnto(done, SyntaxError);
      ghost var t := ReadTerm(s).t;
      tokenlist := tokenlist + [Val(next.value)];
      ptr := next.ptr;
      assert expression[ptr..] == s[ReadTerm(s).length..];
      if ptr == |expression| {
        last := Some(t);
        break;
      }
      var op := OpAtFront(expression[ptr..]);
      if op.None? { return Syntax; }
      TokensSnoc(m, done, t, op.value);
      tokenlist := tokenlist + [Operator(op.value)];
      assert expression[ptr..][|OpText(op.value)|..] == expression[ptr + |OpText(op.value)|..];
      ptr := ptr + |OpText(op.value)|;
      done := done + [(t, op.value)];
    }
    TokensCount(m, done);
    if tokenlist == [] { return NoValue; }
    r := Finish(m, tokenlist, done, last);
  }

  lemma {:induction false} TokensCount(m: Machine, done: seq<(Term, Op)>)
    ensures |TokensOf(m, done)| == 2 * |done|
  {
    if done != [] { TokensCount(m, done[..|done| - 1]); }
  }

  lemma Fresh(m: Machine, s: string)
    ensures TokensOf(m, []) == [] && Parse(s) == Remaining([], s[0..])
  {
    assert s[0..] == s;
  }

  /** The seven passes over the complete list. */
  method Finish(m: Machine, tokens: seq<Token>, ghost done: seq<(Term, Op)>, ghost last: Option<Term>)
    returns (r: Outcome)
    requires last.Some? ==> tokens == TokensOf(m, done) + [Val(TermValue(m, last.value))]
    requires last.None? ==> done != [] && tokens == TokensOf(m, done)
    ensures r == if last.Some? then Meaning(m, Onto(done, Parsed(Last(last.value)))) else Syntax
  {
    hide Onto, TokensOf, Flat, Eval, TermValue;
    ghost var c: Chain;
    ghost var t: seq<Token>;
    if last.Some? {
      TokensOnto(m, done, Last(last.value));
      FlatLink(ChainOf(m, Last(last.value)));
      c, t := ChainOf(m, Onto(done, Parsed(Last(last.value))).f), [];
      assert tokens == Flat(c) + t;
    } else {
      TokensTail(m, done);
      c := ChainOf(m, Onto(done[..|done| - 1], Parsed(Last(done[|done| - 1].0))).f);
      t := [Operator(done[|done| - 1].1)];
    }
    var v := Resolve(m, tokens, c, t);
    return if v.Some? then Result(v.value) else Syntax;
  }

  /** A text has a value exactly if it is the text of a formula, and it is the
      formula's value by the grammar. */
  lemma ValueOfText(m: Machine, s: string)
    ensures Meaning(m, Parse(s)).Result? <==> exists f :: FormulaOk(f) && Render(f) == s
    ensures forall f | FormulaOk(f) && Render(f) == s :: Meaning(m, Parse(s)) == Result(Eval(m, 7, ChainOf(m, f)))
  {
    ParsedIsRendered(s);
    forall f | FormulaOk(f) && Render(f) == s ensures Parse(s) == Parsed(f) { ParseRendered(f); }
  }

  /** Blanks and tabs are dropped, and a comma is read as a dot. */
  function Clean(s: string): string {
    if s == "" then ""
    else CleanChar(s[0]) + Clean(s[1..])
  }

  function CleanChar(c: char): string {
    if c == ' ' || c == '\t' then "" else if c == ',' then "." else [c]
  }

  lemma CleanStep(s: string)
    requires s != ""
    ensures Clean(s) == CleanChar(s[0]) + Clean(s[1..])
  {
  }

  lemma CleanFront(a: string, b: string)
    requires a != "" && Clean(a[1..] + b) == Clean(a[1..]) + Clean(b)
    ensures Clean(a + b) == Clean(a) + Clean(b)
  {
    hide Clean, CleanChar;
    var s := a + b;
    CleanStep(a);
    assert s[0] == a[0] && s[1..] == a[1..] + b;
    CleanStep(s);
  }

  lemma {:induction false} CleanJoined(a: string, b: string)
    ensures Clean(a + b) == Clean(a) + Clean(b)
  {
    if a == "" {
      assert a + b == b;
    } else {
      CleanJoined(a[1..], b);
      CleanFront(a, b);
    }
  }

  lemma CleanBlank()
    ensures Clean(" ") == ""
  {
    assert Clean("") == "" && " "[1..] == "";
  }

  method Calc(m: Machine, expression: string) returns (r: Outcome)
    ensures r == Meaning(m, Parse(Clean(expression)))
  {
    var buffer := new char[BUFFERSIZE];
    r := Tokenize(m, Clean(expression), buffer);
  }

  /** A blank may stand anywhere, even inside a number or a shift operator. */
  lemma BlankIgnored(m: Machine, a: string, b: string)
    ensures Parse(Clean(a + " " + b)) == Parse(Clean(a + b))
  {
    hide Parse, Clean;
    CleanJoined(a + " ", b);
    CleanJoined(a, " ");
    CleanJoined(a, b);
    CleanBlank();
    assert Clean(a) + "" == Clean(a);
  }

  /** For instance: the sum binds tighter than the difference. */
  lemma SumBindsTighter(m: Machine)
    ensures Meaning(m, Parse("1-2+3")) ==
            Result(m.apply(Minus, m.atof("1"), m.apply(Plus, m.atof("2"), m.atof("3"))))
  {
    var f := More(Num("2"), Plus, Last(Num("3")));
    var g := More(Num("1"), Minus, f);
    var (x, y, z) := (m.atof("1"), m.atof("2"), m.atof("3"));
    RenderThree();
    Digit12();
    NumeralExactly("3");
    TwoOperators(m, Plus, Minus, y, x, z);
    ChainIs(m, Num("3"), Plus, f);
    ChainIs(m, Num("2"), Plus, f.rest);
    ChainIs(m, Num("1"), Minus, f);
    TwoOperators(m, Plus, Minus, x, y, z);
    FormulaMeans(m, g, "1-2+3");
    hide Parse, Eval, Numeral, Render, ChainOf;
  }

  /** And brackets bind tighter still. */
  lemma BracketsFirst(m: Machine)
    ensures Meaning(m, Parse("(1-2)+3")) ==
            Result(m.apply(Plus, m.apply(Minus, m.atof("1"), m.atof("2")), m.atof("3")))
  {
    var d := More(Num("1"), Minus, Last(Num("2")));
    var h := More(Group(d), Plus, Last(Num("3")));
    var (x, y, z) := (m.atof("1"), m.atof("2"), m.atof("3"));
    RenderThree();
    Digit12();
    NumeralExactly("3");
    ChainIs(m, Num("2"), Minus, d);
    ChainIs(m, Num("1"), Minus, d.rest);
    OneOperator(m, 7, x, Minus, y);
    ChainIs(m, Num("3"), Plus, d);
    ChainIs(m, Group(d), Plus, h.rest);
    OneOperator(m, 7, m.apply(Minus, x, y), Plus, z);
    FormulaMeans(m, h, "(1-2)+3");
    hide Parse, Eval, Numeral, Render, ChainOf;
  }

  lemma ChainIs(m: Machine, t: Term, op: Op, rest: Formula)
    ensures ChainOf(m, Last(t)) == One(TermValue(m, t))
    ensures ChainOf(m, More(t, op, rest)) == Link(TermValue(m, t), op, ChainOf(m, rest))
    ensures t.Num? ==> TermValue(m, t) == m.atof(t.text)
    ensures t.Group? ==> TermValue(m, t) == Eval(m, 7, ChainOf(m, t.body))
  {
    hide Eval;
  }

  lemma FormulaMeans(m: Machine, f: Formula, s: string)
    requires FormulaOk(f) && Render(f) == s
    ensures Meaning(m, Parse(s)) == Result(Eval(m, 7, ChainOf(m, f)))
  {
    hide Eval;
    ParseRendered(f);
    hide Parse;
  }

  lemma RenderThree()
    ensures Render(More(Num("1"), Minus, More(Num("2"), Plus, Last(Num("3"))))) == "1-2+3"
    ensures Render(More(Group(More(Num("1"), Minus, Last(Num("2")))), Plus, Last(Num("3")))) == "(1-2)+3"
  {
    var f := More(Num("2"), Plus, Last(Num("3")));
    var d := More(Num("1"), Minus, Last(Num("2")));
    assert Render(f) == "2+3";
    assert Render(d) == "1-2";
  }

  /** A tab may stand anywhere, too. */
  lemma TabIgnored(m: Machine, a: string, b: string)
    ensures Parse(Clean(a + "\t" + b)) == Parse(Clean(a + b))
  {
    hide Parse;
    CleanJoined(a + "\t", b);
    CleanJoined(a, "\t");
    CleanJoined(a, b);
    assert Clean("\t") == "" by { CleanTab(); }
    hide Clean;
    assert Clean(a) + "" == Clean(a);
  }

  lemma CleanTab()
    ensures Clean("\t") == ""
  {
    CleanStep("\t");
  }

  /** A comma is as good as a dot. */
  lemma CommaIsDot(a: string, b: string)
    ensures Clean(a + "," + b) == Clean(a + "." + b)
  {
    CleanJoined(a + ",", b);
    CleanJoined(a, ",");
    CleanJoined(a + ".", b);
    CleanJoined(a, ".");
    CleanStep(",");
    CleanStep(".");
    assert Clean(",") == "." == Clean(".");
  }

  /** Everything else stays as it is. */
  lemma {:induction false} CleanAlready(s: string)
    requires forall c <- s :: c != ' ' && c != '\t' && c != ','
    ensures Clean(s) == s
  {
    if s != "" {
      assert s[0] in s && forall c <- s[1..] :: c in s;
      CleanAlready(s[1..]);
      assert s == [s[0]] + s[1..];
    }
  }
}
