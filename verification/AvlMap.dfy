/** The map template on top of the tree and the heap: what its nodes hold. */
module AvlMapModel {
  import opened AvlShape

  function KeyOf(n: Node): int { n.key }

  function AddressOf(n: Node): int { n.address }

  /** What the nodes show under `f`. */
  ghost function Image(s: seq<Node>, f: Node -> int): set<int> {
    set n <- s :: f(n)
  }

  /** No two places of `s` show the same under `f`. */
  ghost predicate Injective(s: seq<Node>, f: Node -> int) {
    s == [] || (f(s[0]) !in Image(s[1..], f) && Injective(s[1..], f))
  }

  /** The entries, each as often as it is stored. */
  function Entries(s: seq<Node>): multiset<(int, Value)> {
    if s == [] then multiset{} else multiset{(s[0].key, s[0].value)} + Entries(s[1..])
  }

  /** The finite map the nodes stand for. */
  function MapOf(s: seq<Node>): map<int, Value> {
    if s == [] then map[] else MapOf(s[1..])[s[0].key := s[0].value]
  }

  lemma ImageSplit(s: seq<Node>, f: Node -> int)
    requires s != []
    ensures Image(s, f) == {f(s[0])} + Image(s[1..], f)
  {
    assert s == [s[0]] + s[1..];
  }

  /** How an insertion shows in the length, the images under `f` and the entries. */
  lemma {:induction false} InsertedAll(s: seq<Node>, x: Node, f: Node -> int)
    ensures forall n :: n in Inserted(s, x) <==> n == x || n in s
    ensures Image(Inserted(s, x), f) == Image(s, f) + {f(x)}
    ensures |Inserted(s, x)| == |s| + 1
    ensures Injective(Inserted(s, x), f) <==> Injective(s, f) && f(x) !in Image(s, f)
  {
    var r := Inserted(s, x);
    if s == [] || x.key <= s[0].key {
      assert r[1..] == s;
    } else {
      InsertedAll(s[1..], x, f);
      assert r == [s[0]] + Inserted(s[1..], x);
      assert r[1..] == Inserted(s[1..], x);
      assert s == [s[0]] + s[1..];
      ImageSplit(s, f);
    }
    hide Inserted, Image;
    ImageSplit(r, f);
  }

  lemma {:induction false} InsertedEntries(s: seq<Node>, x: Node)
    ensures Entries(Inserted(s, x)) == Entries(s) + multiset{(x.key, x.value)}
  {
    var r := Inserted(s, x);
    if s == [] || x.key <= s[0].key {
      assert r[1..] == s;
    } else {
      InsertedEntries(s[1..], x);
      assert r[1..] == Inserted(s[1..], x);
    }
  }

  lemma InsertedMember(s: seq<Node>, x: Node, n: Node)
    ensures n in Inserted(s, x) <==> n == x || n in s
  {
    InsertedAll(s, x, KeyOf);
  }

  lemma {:induction false} EntryOf(s: seq<Node>, n: Node)
    requires n in s
    ensures (n.key, n.value) in Entries(s)
  {
    if s[0] != n {
      assert n in s[1..];
      EntryOf(s[1..], n);
    }
  }

  lemma {:induction false} WithoutMember(s: seq<Node>, x: Node, n: Node)
    requires n in Without(s, x)
    ensures n in s
  {
    if s != [] && s[0] != x && n != s[0] {
      assert n in Without(s[1..], x);
      WithoutMember(s[1..], x, n);
    }
  }

  lemma {:induction false} EntriesWithout(s: seq<Node>, x: Node)
    requires x in s
    ensures Entries(s) == Entries(Without(s, x)) + multiset{(x.key, x.value)}
  {
    if s[0] != x {
      EntriesWithout(s[1..], x);
      var r := Without(s, x);
      assert r[0] == s[0] && r[1..] == Without(s[1..], x);
    }
  }

  lemma {:induction false} WithoutAll(s: seq<Node>, x: Node, f: Node -> int)
    requires x in s && Injective(s, f)
    ensures forall n :: n in Without(s, x) <==> n in s && n != x
    ensures Image(Without(s, x), f) == Image(s, f) - {f(x)}
    ensures |Without(s, x)| == |s| - 1
    ensures Injective(Without(s, x), f)
  {
    var r := Without(s, x);
    assert s == [s[0]] + s[1..];
    ImageSplit(s, f);
    if s[0] != x {
      WithoutAll(s[1..], x, f);
      assert r[0] == s[0] && r[1..] == Without(s[1..], x);
      ImageSplit(r, f);
      assert f(x) in Image(s[1..], f);
    }
  }

  /** Every node lives in its own element of the heap; besides those only the
      leaked elements are in use, and the count of elements in use says so. */
  ghost predicate HousedIn(s: seq<Node>, leaked: set<int>, live: set<int>, used: int) {
    && Injective(s, AddressOf) && leaked !! Image(s, AddressOf)
    && live == leaked + Image(s, AddressOf) && used == |s| + |leaked|
  }

  lemma NothingStored()
    ensures HousedIn([], {}, {}, 0) && Injective([], KeyOf) && MapOf([]) == map[] && Entries([]) == multiset{}
  {
  }

  lemma HousedInserted(s: seq<Node>, x: Node, leaked: set<int>, live: set<int>, used: int)
    requires HousedIn(s, leaked, live, used) && AddressOf(x) !in live
    ensures HousedIn(Inserted(s, x), leaked, live + {AddressOf(x)}, used + 1)
  {
    InsertedAll(s, x, AddressOf);
  }

  lemma HousedWithout(s: seq<Node>, x: Node, leaked: set<int>, live: set<int>, used: int)
    requires HousedIn(s, leaked, live, used) && x in s
    ensures AddressOf(x) in live && AddressOf(x) !in leaked
    ensures HousedIn(Without(s, x), leaked, live - {AddressOf(x)}, used - 1)
  {
    WithoutAll(s, x, AddressOf);
    hide Without, Injective;
    assert AddressOf(x) in Image(s, AddressOf);
  }

  lemma LeakedLive(s: seq<Node>, leaked: set<int>, live: set<int>, used: int)
    requires HousedIn(s, leaked, live, used)
    ensures leaked <= live
  {
  }

  lemma HousedLeak(s: seq<Node>, a: int, leaked: set<int>, live: set<int>, used: int)
    requires HousedIn(s, leaked, live - {a}, used - 1) && a in live && a !in leaked
    ensures HousedIn(s, leaked + {a}, live, used)
  {
    hide Injective;
    assert leaked + Image(s, AddressOf) == live - {a};
  }

  lemma {:induction false} MapKeys(s: seq<Node>)
    ensures MapOf(s).Keys == Image(s, KeyOf)
    ensures Injective(s, KeyOf) ==> |MapOf(s)| == |s| && forall n <- s :: MapOf(s)[n.key] == n.value
  {
    if s != [] {
      MapKeys(s[1..]);
      ImageSplit(s, KeyOf);
      assert s == [s[0]] + s[1..];
      forall n | n in s[1..] && Injective(s, KeyOf) ensures n.key != s[0].key {
        assert KeyOf(n) in Image(s[1..], KeyOf);
      }
    }
  }

  /** With distinct keys, the key tells the node. */
  lemma {:induction false} OneKey(s: seq<Node>, x: Node)
    requires Injective(s, KeyOf) && x in s
    ensures forall i | 0 <= i < |s| && s[i].key == x.key :: s[i] == x
  {
    if s[0] != x {
      OneKey(s[1..], x);
      assert KeyOf(x) in Image(s[1..], KeyOf);
      forall i | 0 <= i < |s| && s[i].key == x.key ensures s[i] == x {
        assert i > 0 ==> s[i] == s[1..][i - 1];
      }
    } else {
      forall i | 0 < i < |s| ensures s[i].key != x.key {
        assert KeyOf(s[1..][i - 1]) in Image(s[1..], KeyOf);
      }
    }
  }

  /** With distinct keys, an insertion is a map update with a new key. */
  lemma MapInserted(s: seq<Node>, x: Node)
    requires Injective(s, KeyOf) && x.key !in Image(s, KeyOf)
    ensures Injective(Inserted(s, x), KeyOf)
    ensures MapOf(Inserted(s, x)) == MapOf(s)[x.key := x.value]
  {
    InsertedAll(s, x, KeyOf);
    MapKeys(s);
    MapKeys(Inserted(s, x));
    hide Inserted, Injective, MapOf;
    var (m, m') := (MapOf(s), MapOf(Inserted(s, x)));
    assert m'.Keys == m.Keys + {x.key};
    forall k | k in m ensures m'[k] == m[k] {
      var n :| n in s && KeyOf(n) == k;
      assert n in Inserted(s, x);
    }
    assert x in Inserted(s, x);
  }

  /** With distinct keys, taking a node away removes exactly its key. */
  lemma MapWithout(s: seq<Node>, x: Node)
    requires Injective(s, KeyOf) && x in s
    ensures Injective(Without(s, x), KeyOf)
    ensures MapOf(Without(s, x)) == MapOf(s) - {x.key}
  {
    WithoutAll(s, x, KeyOf);
    MapKeys(s);
    MapKeys(Without(s, x));
    forall k | k in MapOf(Without(s, x)) ensures k in MapOf(s) && MapOf(Without(s, x))[k] == MapOf(s)[k] {
      var n :| n in Without(s, x) && KeyOf(n) == k;
      assert n in s;
    }
  }
}

/** Whole runs of the map: what a finite map answers, and when the pool has room. */
module AvlMapRuns {
  import opened AvlShape
  import opened HeapModel

  const FOUR_GB: int := 0x1_0000_0000

  datatype FindOutcome = Found(value: Value) | ItemNotFound

  /** A put says whether the system would give memory, and where it would like to place it. */
  datatype Command =
    Put(key: int, value: Value, granted: bool, hint: int) | Drop(key: int) | Wipe | Get(key: int) | Has(key: int)

  datatype Answer = Tried(done: bool) | Got(outcome: FindOutcome) | Told(present: bool)

  /** The elements of the pool, how many more the next growth brings, and how many of
      them it has lost sight of. */
  datatype Pool = Pool(capacity: int, step: nat, leaked: nat)

  datatype State = State(entries: map<int, Value>, pool: Pool)

  function Used(s: State): int {
    |s.entries| + s.pool.leaked
  }

  predicate HasRoom(s: State, granted: bool) {
    granted || Used(s) < s.pool.capacity
  }

  /** A put is refused exactly for a key that is there or for want of memory, a drop
      exactly for a key that is not there; lookups tell what the map holds. */
  function Reply(s: State, c: Command): Answer {
    match c
    case Put(key, _, granted, _) => Tried(key !in s.entries && HasRoom(s, granted))
    case Drop(key) => Tried(key in s.entries)
    case Wipe => Tried(true)
    case Get(key) => Got(if key in s.entries then Found(s.entries[key]) else ItemNotFound)
    case Has(key) => Told(key in s.entries)
  }

  /** The map after a command that was answered so. */
  function Onward(m: map<int, Value>, c: Command, a: Answer): map<int, Value> {
    match c
    case Put(key, value, _, _) => if a == Tried(true) then m[key := value] else m
    case Drop(key) => m - {key}
    case Wipe => map[]
    case Get(_) => m
    case Has(_) => m
  }

  /** An element has come back to the pool: it is free now, unless the pool is longer
      than 4 GB and has lost it. */
  predicate Returned(s: State, leaked: nat, size: nat) {
    || (s.pool.leaked == leaked && Used(s) < s.pool.capacity)
    || (s.pool.leaked == leaked + 1 && s.pool.capacity * size > FOUR_GB)
  }

  /** Does the pool grow? A put asks for an element even if the key is there. */
  predicate Grows(s: State, c: Command) {
    c.Put? && c.granted && Used(s) == s.pool.capacity
  }

  /** What a command does to the pool, whose elements have `size` bytes and whose steps
      grow by `percent`. */
  predicate PoolStep(s: State, c: Command, t: State, size: nat, percent: nat) {
    && Used(t) <= t.pool.capacity
    && (if Grows(s, c) then NextIncrease(s.pool.step, percent, t.pool.step) else t.pool.step == s.pool.step)
    && match c
       case Put(key, _, granted, _) =>
         if !HasRoom(s, granted) then t.pool == s.pool
         else if key in s.entries then Returned(t, s.pool.leaked, size)
         else
           && t.pool.leaked == s.pool.leaked
           && t.pool.capacity == s.pool.capacity + if Grows(s, c) then s.pool.step else 0
       case Drop(key) =>
         if key !in s.entries then t.pool == s.pool
         else t.pool.capacity <= s.pool.capacity && Returned(t, s.pool.leaked, size)
       case Wipe => t.pool.capacity == 0 && t.pool.leaked == 0
       case Get(_) => t.pool == s.pool
       case Has(_) => t.pool == s.pool
  }

  predicate Step(s: State, c: Command, a: Answer, t: State, size: nat, percent: nat) {
    a == Reply(s, c) && t.entries == Onward(s.entries, c, a) && PoolStep(s, c, t, size, percent)
  }

  /** A run of the commands through these states, with these answers. */
  ghost predicate RunOf(ss: seq<State>, cs: seq<Command>, answers: seq<Answer>, size: nat, percent: nat) {
    && |ss| == |cs| + 1 && |answers| == |cs|
    && forall i | 0 <= i < |cs| :: Step(ss[i], cs[i], answers[i], ss[i + 1], size, percent)
  }

  lemma RunGrows(ss: seq<State>, cs: seq<Command>, answers: seq<Answer>, c: Command, a: Answer, t: State, size: nat, percent: nat)
    requires RunOf(ss, cs, answers, size, percent) && Step(ss[|cs|], c, a, t, size, percent)
    ensures RunOf(ss + [t], cs + [c], answers + [a], size, percent)
  {
    hide Step;
  }

  // ------------------------------------------------------- a system with memory

  /** What a finite map answers that knows of no memory. */
  function Plain(m: map<int, Value>, c: Command): Answer {
    if c.Put? then Tried(c.key !in m) else Reply(State(m, Pool(0, 0, 0)), c)
  }

  function PlainMap(m: map<int, Value>, cs: seq<Command>): map<int, Value> {
    if cs == [] then m
    else
      var before := PlainMap(m, cs[..|cs| - 1]);
      Onward(before, cs[|cs| - 1], Plain(before, cs[|cs| - 1]))
  }

  /** As long as the system gives memory when the pool is full, every answer is that of
      the finite map. */
  lemma {:induction false} GrantedRun(ss: seq<State>, cs: seq<Command>, answers: seq<Answer>, size: nat, percent: nat, i: nat)
    requires RunOf(ss, cs, answers, size, percent) && i <= |cs|
    requires forall j | 0 <= j < |cs| && cs[j].Put? :: cs[j].granted || Used(ss[j]) < ss[j].pool.capacity
    ensures ss[i].entries == PlainMap(ss[0].entries, cs[..i])
    ensures i < |cs| ==> answers[i] == Plain(PlainMap(ss[0].entries, cs[..i]), cs[i])
    decreases i
  {
    if i > 0 {
      GrantedRun(ss, cs, answers, size, percent, i - 1);
      assert cs[..i][..i - 1] == cs[..i - 1];
      assert Step(ss[i - 1], cs[i - 1], answers[i - 1], ss[i], size, percent);
    }
    if i < |cs| { assert Step(ss[i], cs[i], answers[i], ss[i + 1], size, percent); }
  }

  // ---------------------------------------------------- a system without memory

  /** As long as the pool is not longer than 4 GB, the pool loses nothing: its
      elements in use are the entries, and a put that gets no memory is refused for a
      new key exactly if there are as many entries as elements. */
  lemma {:induction false} NothingLost(ss: seq<State>, cs: seq<Command>, answers: seq<Answer>, size: nat, percent: nat, i: nat)
    requires RunOf(ss, cs, answers, size, percent) && i <= |cs| && ss[0].pool.leaked == 0
    requires forall j | 0 <= j <= |cs| :: ss[j].pool.capacity * size <= FOUR_GB
    ensures Used(ss[i]) == |ss[i].entries|
    ensures i < |cs| && cs[i].Put? && !cs[i].granted ==>
              answers[i] == Tried(cs[i].key !in ss[i].entries && |ss[i].entries| < ss[i].pool.capacity)
    decreases i
  {
    if i > 0 {
      NothingLost(ss, cs, answers, size, percent, i - 1);
      assert Step(ss[i - 1], cs[i - 1], answers[i - 1], ss[i], size, percent);
    }
    if i < |cs| { assert Step(ss[i], cs[i], answers[i], ss[i + 1], size, percent); }
  }

  /** A put takes up what a drop has left, without the system's help. */
  lemma DropMakesRoom(ss: seq<State>, cs: seq<Command>, answers: seq<Answer>, size: nat, percent: nat, i: nat)
    requires RunOf(ss, cs, answers, size, percent) && i + 1 < |cs| && ss[i + 1].pool.capacity * size <= FOUR_GB
    requires cs[i].Drop? && answers[i] == Tried(true) && cs[i + 1].Put?
    ensures answers[i + 1] == Tried(cs[i + 1].key !in ss[i + 1].entries)
  {
    assert Step(ss[i], cs[i], answers[i], ss[i + 1], size, percent);
    assert Step(ss[i + 1], cs[i + 1], answers[i + 1], ss[i + 2], size, percent);
  }

  /** As long as nothing comes back, the capacity is the sum of the growths' steps, and
      there have been no more of them than the entries need. */
  lemma {:induction false} CapacityLaw(ss: seq<State>, cs: seq<Command>, answers: seq<Answer>, size: nat, percent: nat, i: nat)
    returns (steps: seq<nat>)
    requires RunOf(ss, cs, answers, size, percent) && i <= |cs| && ss[0].pool.capacity == 0 == Used(ss[0])
    requires forall j | 0 <= j < |cs| :: !cs[j].Drop? && !cs[j].Wipe?
    requires forall j | 0 <= j < |cs| && cs[j].Put? :: cs[j].key !in ss[j].entries
    ensures steps != [] && steps[0] == ss[0].pool.step && steps[|steps| - 1] == ss[i].pool.step
    ensures forall k | 0 <= k < |steps| - 1 :: NextIncrease(steps[k], percent, steps[k + 1])
    ensures ss[i].pool.capacity == Capacity(ss[0].pool.step, percent, |steps| - 1)
    ensures |steps| > 1 ==> Capacity(ss[0].pool.step, percent, |steps| - 2) < |ss[i].entries|
    decreases i
  {
    hide Capacity, NextIncrease, Step;
    if i == 0 {
      steps := [ss[0].pool.step];
      NoCapacity(ss[0].pool.step, percent);
    } else {
      steps := CapacityLaw(ss, cs, answers, size, percent, i - 1);
      NothingComesBack(ss, cs, answers, size, percent, i - 1);
      if Grows(ss[i - 1], cs[i - 1]) {
        CapacityMore(ss[0].pool.step, percent, steps);
        steps := steps + [ss[i].pool.step];
      }
    }
  }

  lemma {:induction false} NeverLost(ss: seq<State>, cs: seq<Command>, answers: seq<Answer>, size: nat, percent: nat, i: nat)
    requires RunOf(ss, cs, answers, size, percent) && i <= |cs| && ss[0].pool.leaked == 0
    requires forall j | 0 <= j < |cs| :: !cs[j].Drop?
    requires forall j | 0 <= j < |cs| && cs[j].Put? :: cs[j].key !in ss[j].entries
    ensures ss[i].pool.leaked == 0
    decreases i
  {
    if i > 0 {
      NeverLost(ss, cs, answers, size, percent, i - 1);
      assert Step(ss[i - 1], cs[i - 1], answers[i - 1], ss[i], size, percent);
    }
  }

  lemma NothingComesBack(ss: seq<State>, cs: seq<Command>, answers: seq<Answer>, size: nat, percent: nat, i: nat)
    requires RunOf(ss, cs, answers, size, percent) && i < |cs| && ss[0].pool.leaked == 0
    requires forall j | 0 <= j < |cs| :: !cs[j].Drop? && !cs[j].Wipe?
    requires forall j | 0 <= j < |cs| && cs[j].Put? :: cs[j].key !in ss[j].entries
    ensures
      var (s, t) := (ss[i], ss[i + 1]);
      if Grows(s, cs[i])
      then t.pool.capacity == s.pool.capacity + s.pool.step && NextIncrease(s.pool.step, percent, t.pool.step)
           && |t.entries| == s.pool.capacity + 1
      else t.pool.capacity == s.pool.capacity && t.pool.step == s.pool.step && |t.entries| >= |s.entries|
  {
    hide NextIncrease;
    NeverLost(ss, cs, answers, size, percent, i);
    assert Step(ss[i], cs[i], answers[i], ss[i + 1], size, percent);
  }

  // ------------------------------------------------------------ the last word on a key

  /** No drop of this key and no clearing in front of command `n`, from command `from` on. */
  predicate Untouched(cs: seq<Command>, key: int, from: nat, n: nat)
    requires n <= |cs|
  {
    forall l | from <= l < n :: cs[l] != Drop(key) && cs[l] != Wipe
  }

  /** Command `j` has put this value under the key. */
  predicate PutBy(cs: seq<Command>, answers: seq<Answer>, key: int, value: Value, j: nat)
    requires |answers| == |cs|
  {
    j < |cs| && cs[j].Put? && cs[j].key == key && cs[j].value == value && answers[j] == Tried(true)
  }

  ghost predicate PutSince(cs: seq<Command>, answers: seq<Answer>, key: int, value: Value, n: nat)
    requires |answers| == |cs| && n <= |cs|
  {
    exists j :: 0 <= j < n && PutBy(cs, answers, key, value, j) && Untouched(cs, key, j + 1, n)
  }

  /** In front of command `n` the last word on the key is this value: it was there at the
      start or has been put there, and nothing has taken it away since. */
  ghost predicate Holds(m: map<int, Value>, cs: seq<Command>, answers: seq<Answer>, key: int, value: Value, n: nat)
    requires |answers| == |cs| && n <= |cs|
  {
    || (key in m && m[key] == value && Untouched(cs, key, 0, n))
    || PutSince(cs, answers, key, value, n)
  }

  ghost predicate HoldsSome(m: map<int, Value>, cs: seq<Command>, answers: seq<Answer>, key: int, n: nat)
    requires |answers| == |cs| && n <= |cs|
  {
    || (key in m && Untouched(cs, key, 0, n))
    || exists j ::
         0 <= j < n && cs[j].Put? && PutBy(cs, answers, key, cs[j].value, j) && Untouched(cs, key, j + 1, n)
  }

  lemma UntouchedStep(cs: seq<Command>, key: int, from: nat, n: nat)
    requires n < |cs|
    ensures from <= n ==>
              (Untouched(cs, key, from, n + 1) <==> Untouched(cs, key, from, n) && cs[n] != Drop(key) && cs[n] != Wipe)
  {
  }

  lemma PutSinceStep(cs: seq<Command>, answers: seq<Answer>, key: int, value: Value, n: nat)
    requires |answers| == |cs| && n < |cs|
    ensures PutSince(cs, answers, key, value, n + 1) <==>
            PutBy(cs, answers, key, value, n)
            || (PutSince(cs, answers, key, value, n) && cs[n] != Drop(key) && cs[n] != Wipe)
  {
    hide PutBy;
    if PutBy(cs, answers, key, value, n) { assert Untouched(cs, key, n + 1, n + 1); }
    if PutSince(cs, answers, key, value, n) && cs[n] != Drop(key) && cs[n] != Wipe {
      var j :| 0 <= j < n && PutBy(cs, answers, key, value, j) && Untouched(cs, key, j + 1, n);
      UntouchedStep(cs, key, j + 1, n);
    }
    if PutSince(cs, answers, key, value, n + 1) && !PutBy(cs, answers, key, value, n) {
      var j :| 0 <= j < n + 1 && PutBy(cs, answers, key, value, j) && Untouched(cs, key, j + 1, n + 1);
      UntouchedStep(cs, key, j + 1, n);
    }
  }

  lemma {:induction false} LastWord(ss: seq<State>, cs: seq<Command>, answers: seq<Answer>, size: nat, percent: nat,
                                    n: nat, key: int, value: Value)
    requires RunOf(ss, cs, answers, size, percent) && n <= |cs|
    ensures key in ss[n].entries && ss[n].entries[key] == value <==> Holds(ss[0].entries, cs, answers, key, value, n)
    decreases n
  {
    if n > 0 {
      LastWord(ss, cs, answers, size, percent, n - 1, key, value);
      OneWord(ss[n - 1], cs[n - 1], answers[n - 1], ss[n], size, percent, key, value);
      HoldsStep(ss[0].entries, cs, answers, key, value, n - 1);
      hide Holds, Step;
    }
  }

  lemma OneWord(s: State, c: Command, a: Answer, t: State, size: nat, percent: nat, key: int, value: Value)
    requires Step(s, c, a, t, size, percent)
    ensures key in t.entries && t.entries[key] == value <==>
            || (c.Put? && c.key == key && c.value == value && a == Tried(true))
            || (key in s.entries && s.entries[key] == value && c != Drop(key) && c != Wipe)
  {
    hide PoolStep;
  }

  lemma HoldsStep(m: map<int, Value>, cs: seq<Command>, answers: seq<Answer>, key: int, value: Value, n: nat)
    requires |answers| == |cs| && n < |cs|
    ensures Holds(m, cs, answers, key, value, n + 1) <==>
            || PutBy(cs, answers, key, value, n)
            || (Holds(m, cs, answers, key, value, n) && cs[n] != Drop(key) && cs[n] != Wipe)
  {
    UntouchedStep(cs, key, 0, n);
    PutSinceStep(cs, answers, key, value, n);
    hide Untouched, PutSince, PutBy;
  }

  lemma SomeWord(ss: seq<State>, cs: seq<Command>, answers: seq<Answer>, size: nat, percent: nat, n: nat, key: int)
    requires RunOf(ss, cs, answers, size, percent) && n <= |cs|
    ensures key in ss[n].entries <==> HoldsSome(ss[0].entries, cs, answers, key, n)
  {
    hide Step, Untouched;
    var m := ss[0].entries;
    if key in ss[n].entries { LastWord(ss, cs, answers, size, percent, n, key, ss[n].entries[key]); }
    if HoldsSome(m, cs, answers, key, n) {
      if key in m && Untouched(cs, key, 0, n) {
        LastWord(ss, cs, answers, size, percent, n, key, m[key]);
      } else {
        var j :| 0 <= j < n && cs[j].Put? && PutBy(cs, answers, key, cs[j].value, j) && Untouched(cs, key, j + 1, n);
        LastWord(ss, cs, answers, size, percent, n, key, cs[j].value);
      }
    }
  }

  /** Every answer in a run is decided by the last word on its key. */
  lemma EveryAnswer(ss: seq<State>, cs: seq<Command>, answers: seq<Answer>, size: nat, percent: nat, i: nat)
    requires RunOf(ss, cs, answers, size, percent) && i < |cs|
    ensures cs[i].Has? ==>
              answers[i] == Told(true) || answers[i] == Told(false)
    ensures cs[i].Has? ==>
              (answers[i] == Told(true) <==> HoldsSome(ss[0].entries, cs, answers, cs[i].key, i))
    ensures cs[i].Get? ==> forall value ::
              answers[i] == Got(Found(value)) <==> Holds(ss[0].entries, cs, answers, cs[i].key, value, i)
    ensures cs[i].Get? ==>
              (answers[i] == Got(ItemNotFound) <==> !HoldsSome(ss[0].entries, cs, answers, cs[i].key, i))
    ensures cs[i].Drop? ==>
              answers[i] == Tried(true) || answers[i] == Tried(false)
    ensures cs[i].Drop? ==>
              (answers[i] == Tried(true) <==> HoldsSome(ss[0].entries, cs, answers, cs[i].key, i))
    ensures cs[i].Put? ==>
              answers[i] == Tried(true) || answers[i] == Tried(false)
    ensures cs[i].Put? && (cs[i].granted || |ss[i].entries| + ss[i].pool.leaked < ss[i].pool.capacity) ==>
              (answers[i] == Tried(true) <==> !HoldsSome(ss[0].entries, cs, answers, cs[i].key, i))
    ensures cs[i].Put? && !cs[i].granted && |ss[i].entries| + ss[i].pool.leaked >= ss[i].pool.capacity ==>
              answers[i] == Tried(false)
    ensures cs[i].Wipe? ==> answers[i] == Tried(true)
  {
    assert Step(ss[i], cs[i], answers[i], ss[i + 1], size, percent);
    if !cs[i].Wipe? {
      SomeWord(ss, cs, answers, size, percent, i, cs[i].key);
      forall value
        ensures cs[i].key in ss[i].entries && ss[i].entries[cs[i].key] == value
                <==> Holds(ss[0].entries, cs, answers, cs[i].key, value, i)
      {
        LastWord(ss, cs, answers, size, percent, i, cs[i].key, value);
      }
    }
    hide Holds, HoldsSome, RunOf, PoolStep, Onward;
  }
}

module AvlMap {
  import opened AvlMapRuns
  import opened AvlShape
  import opened AvlMapModel
  import AvlLinks
  import T = AvlTree
  import H = MemoryHeap
  import HeapModel

  datatype AddOutcome = Added | DuplicateItem | OutOfMemory | HeapCorrupt
  datatype EraseOutcome = Erased | NothingToErase | EraseHeapCorrupt

  class AvlMap {
    const tree: T.AvlTree
    const heap: H.MemoryHeap

    /** Elements that stayed in use because the heap did not recognise their address. */
    ghost var leaked: set<int>

    ghost function Stored(): seq<Node>
      reads tree
    {
      InOrder(tree.shape)
    }

    ghost predicate Apart()
      reads tree, heap
    {
      && tree !in heap.repr && this !in heap.repr
      && forall n <- AvlLinks.Nodes(tree.shape) :: n !in heap.repr
    }

    ghost predicate Housed()
      reads this, tree, heap
    {
      HousedIn(Stored(), leaked, heap.LiveSet(), heap.blocksUsed)
    }

    ghost predicate Valid()
      reads this, tree, heap, heap.repr, AvlLinks.Nodes(tree.shape)
    {
      && Apart() && tree.Valid() && heap.Valid() && heap.myElementSize > 0 && Housed()
    }

    /** No two entries have the same key: the tree stands for a finite map. */
    ghost predicate IsMap()
      reads tree
    {
      Injective(Stored(), KeyOf)
    }

    ghost function Contents(): map<int, Value>
      reads tree
    {
      MapOf(Stored())
    }

    ghost function Bag(): multiset<(int, Value)>
      reads tree
    {
      Entries(Stored())
    }

    constructor (itemSize: nat, mended: bool)
      requires H.RoundedSize(itemSize) > 0 && itemSize > 0
      ensures Valid() && tree.Balanced() && IsMap() && !tree.dupes && leaked == {}
      ensures Contents() == map[] && heap.blocksUsed == 0 == heap.blocksAllocated && tree.mended == mended
      ensures heap.increaseSize == 100 && heap.myGrowPercent == 30
      ensures fresh(tree) && fresh(heap.repr) && fresh(AvlLinks.Nodes(tree.shape))
    {
      tree := new T.AvlTree(mended);
      heap := new H.MemoryHeap();
      leaked := {};
      new;
      NothingStored();
      assert Stored() == [] && AvlLinks.Nodes(tree.shape) == {};
      hide T.AvlTree.Valid, H.MemoryHeap.Valid, HeapModel.Live, HousedIn, Injective, MapOf;
      var r := heap.Init(itemSize, 0, 100, 30, H.Refused);
    }

    /** Nodes of the tree are exactly the stored ones. */
    lemma StoredNodes(n: Node)
      ensures n in Stored() <==> n in AvlLinks.Nodes(tree.shape)
    {
      AvlLinks.InOrderNode(tree.shape, n);
    }

    /** Asks the heap for an element; the tree does not notice. */
    method Obtain(os: H.Grant) returns (m: H.MallocResult)
      requires Apart() && tree.Valid() && heap.Valid() && heap.Grantable(os, heap.increaseSize)
      modifies heap.repr
      ensures Apart() && tree.Valid() && heap.Valid() && fresh(heap.repr - old(heap.repr))
      ensures unchanged(tree) && unchanged(this) && heap.myElementSize == old(heap.myElementSize)
      ensures heap.myGrowPercent == old(heap.myGrowPercent)
      ensures heap.myElementSize > 0 ==> !m.NotInitialized?
      ensures heap.myElementSize > 0 ==>
                (m.OutOfMemory? <==> old(heap.blocksUsed == heap.blocksAllocated) && os.Refused?)
      ensures m.Allocated? ==> m.ptr !in old(heap.LiveSet()) && heap.LiveSet() == old(heap.LiveSet()) + {m.ptr}
      ensures m.Allocated? ==> heap.blocksUsed == old(heap.blocksUsed) + 1
      ensures !m.Allocated? ==> heap.LiveSet() == old(heap.LiveSet()) && heap.blocksUsed == old(heap.blocksUsed)
      ensures !m.Allocated? || old(heap.blocksUsed != heap.blocksAllocated) ==>
                heap.blocksAllocated == old(heap.blocksAllocated)
      ensures m.Allocated? && old(heap.blocksUsed == heap.blocksAllocated) ==>
                heap.blocksAllocated == old(heap.blocksAllocated) + old(heap.increaseSize) > old(heap.blocksAllocated)
      ensures if m.Allocated? && old(heap.blocksUsed == heap.blocksAllocated)
              then HeapModel.NextIncrease(old(heap.increaseSize), heap.myGrowPercent, heap.increaseSize)
              else heap.increaseSize == old(heap.increaseSize)
    {
      hide T.AvlTree.Valid, H.MemoryHeap.Valid, InOrder, AvlLinks.Nodes, HeapModel.Live;
      assert allocated(AvlLinks.Nodes(tree.shape));
      m := heap.Malloc(os);
    }

    /** Builds a node in the given element and puts it into the tree; the heap does not notice. */
    method Place(key: int, value: Value, ptr: int) returns (a: T.AddResult, ghost item: Node)
      requires Apart() && tree.Valid() && heap.Valid() && tree.Balanced()
      modifies tree, AvlLinks.Nodes(tree.shape)
      ensures Apart() && tree.Valid() && heap.Valid() && tree.Balanced()
      ensures unchanged(heap) && unchanged(this) && tree.dupes == old(tree.dupes)
      ensures fresh(AvlLinks.Nodes(tree.shape) - old(AvlLinks.Nodes(tree.shape)))
      ensures KeyOf(item) == key && item.value == value && AddressOf(item) == ptr
      ensures a == T.Added || (a == T.Duplicate && tree.shape == old(tree.shape))
      ensures a == T.Duplicate <==> !tree.dupes && key in Image(old(Stored()), KeyOf)
      ensures Stored() == if a == T.Added then Inserted(old(Stored()), item) else old(Stored())
    {
      hide H.MemoryHeap.Valid, InOrder, AvlLinks.Nodes, HeapModel.Live, T.AvlTree.Valid, Inserted;
      ghost var before := tree.shape;
      assert allocated(AvlLinks.Nodes(before)) && allocated(heap.repr);
      var node := new Node(key, value, ptr);
      item := node;
      a := tree.AddNode(node);
      forall n | n in AvlLinks.Nodes(tree.shape) ensures n == node || n in AvlLinks.Nodes(before) {
        StoredNodes(n);
        if a == T.Added { InsertedMember(InOrder(before), node, n); }
        AvlLinks.InOrderNode(before, n);
      }
    }

    /** Gives an element back; only a distance beyond 4 GB from its block's start can fail. */
    method Release(ptr: int) returns (ok: bool)
      requires Apart() && tree.Valid() && heap.Valid() && heap.myElementSize > 0 && ptr in heap.LiveSet()
      modifies heap.repr
      ensures Apart() && tree.Valid() && heap.Valid() && heap.repr == old(heap.repr)
      ensures unchanged(tree) && unchanged(this) && heap.myElementSize == old(heap.myElementSize)
      ensures heap.myGrowPercent == old(heap.myGrowPercent)
      ensures ok ==> heap.LiveSet() == old(heap.LiveSet()) - {ptr} && heap.blocksUsed == old(heap.blocksUsed) - 1
      ensures !ok ==> heap.LiveSet() == old(heap.LiveSet()) && heap.blocksUsed == old(heap.blocksUsed)
      ensures ok <==> old(HeapModel.LiveWithin32(heap.views, ptr))
      ensures ok ==> heap.blocksUsed < heap.blocksAllocated <= old(heap.blocksAllocated)
      ensures heap.increaseSize == old(heap.increaseSize)
      ensures !ok ==> heap.views == old(heap.views) && heap.blocksAllocated == old(heap.blocksAllocated)
      ensures !ok ==> heap.blocksAllocated * heap.myElementSize > FOUR_GB
    {
      if !HeapModel.LiveWithin32(heap.views, ptr) { FarMeansLarge(ptr); }
      hide T.AvlTree.Valid, H.MemoryHeap.Valid, InOrder, AvlLinks.Nodes, HeapModel.Live, HeapModel.LiveWithin32;
      assert allocated(AvlLinks.Nodes(tree.shape));
      var r := heap.Free(ptr);
      ok := r == H.Freed;
    }

    /** Only a pool longer than 4 GB can have an element that far from its block's start. */
    lemma FarMeansLarge(ptr: int)
      requires heap.Valid() && ptr in heap.LiveSet() && !HeapModel.LiveWithin32(heap.views, ptr)
      ensures heap.blocksAllocated * heap.myElementSize > FOUR_GB
    {
      heap.UsedCounted();
      hide HeapModel.Live, HeapModel.LiveWithin32, HeapModel.Placed, H.MemoryHeap.Valid;
      if heap.blocksAllocated * heap.myElementSize <= FOUR_GB {
        HeapModel.SmallPool(heap.views, heap.myElementSize);
        HeapModel.ShortReach(heap.views, heap.myElementSize, ptr);
      }
    }

    /** The heap refused to take this element back. */
    ghost method Leak(a: int)
      requires Apart() && tree.Valid() && heap.Valid() && a in heap.LiveSet() && a !in leaked
      requires HousedIn(Stored(), leaked, heap.LiveSet() - {a}, heap.blocksUsed - 1)
      modifies this`leaked
      ensures Apart() && tree.Valid() && heap.Valid() && Housed() && leaked == old(leaked) + {a}
    {
      hide T.AvlTree.Valid, H.MemoryHeap.Valid, HeapModel.Live, InOrder, AvlLinks.Nodes, HousedIn;
      HousedLeak(Stored(), a, leaked, heap.LiveSet(), heap.blocksUsed);
      leaked := leaked + {a};
    }

    /** An element fresh from the heap gets the new node; a rejected duplicate gives it back. */
    method Add(key: int, value: Value, os: H.Grant) returns (r: AddOutcome)
      requires Valid() && tree.Balanced() && heap.Grantable(os, heap.increaseSize)
      modifies this`leaked, tree, AvlLinks.Nodes(tree.shape), heap.repr
      ensures Valid() && tree.Balanced() && tree.dupes == old(tree.dupes)
      ensures fresh(heap.repr - old(heap.repr))
      ensures fresh(AvlLinks.Nodes(tree.shape) - old(AvlLinks.Nodes(tree.shape)))
      ensures r == Added ==> Bag() == old(Bag()) + multiset{(key, value)}
      ensures r == Added && !tree.dupes && old(IsMap()) ==>
                IsMap() && key !in old(Contents()) && Contents() == old(Contents())[key := value]
      ensures r != Added ==> Stored() == old(Stored())
      ensures r == DuplicateItem || r == HeapCorrupt ==> !tree.dupes && key in old(Contents())
      ensures !tree.dupes && key in old(Contents()) ==> r != Added
      ensures r == OutOfMemory <==> old(heap.blocksUsed == heap.blocksAllocated) && os.Refused?
      ensures r == HeapCorrupt ==>
                exists a :: a !in old(leaked) && leaked == old(leaked) + {a} && a in heap.LiveSet()
                            && !HeapModel.LiveWithin32(heap.views, a)
      ensures r == HeapCorrupt ==> heap.blocksAllocated * heap.myElementSize > FOUR_GB
      ensures r != HeapCorrupt ==> leaked == old(leaked)
      ensures heap.myElementSize == old(heap.myElementSize)
      ensures heap.myGrowPercent == old(heap.myGrowPercent)
      ensures r == OutOfMemory ==> heap.blocksAllocated == old(heap.blocksAllocated)
      ensures r == DuplicateItem ==> heap.blocksUsed < heap.blocksAllocated
      ensures r == Added ==>
                heap.blocksAllocated == old(heap.blocksAllocated)
                                        + if old(heap.blocksUsed == heap.blocksAllocated) then old(heap.increaseSize) else 0
      ensures if old(heap.blocksUsed == heap.blocksAllocated) && os.Granted?
              then HeapModel.NextIncrease(old(heap.increaseSize), heap.myGrowPercent, heap.increaseSize)
              else heap.increaseSize == old(heap.increaseSize)
    {
      hide T.AvlTree.Valid, H.MemoryHeap.Valid, HeapModel.Live, HeapModel.LiveWithin32, Apart, HousedIn;
      hide InOrder, AvlLinks.Nodes, Inserted, Injective, Image, Entries, MapOf, Avl;
      ghost var (was, nodes) := (Stored(), AvlLinks.Nodes(tree.shape));
      var m := Obtain(os);
      if m.OutOfMemory? { return OutOfMemory; }
      var a, item := Place(key, value, m.ptr);
      assert fresh(AvlLinks.Nodes(tree.shape) - nodes);
      HousedInserted(was, item, leaked, old(heap.LiveSet()), old(heap.blocksUsed));
      LeakedLive(was, leaked, old(heap.LiveSet()), old(heap.blocksUsed));
      MapKeys(was);
      if a == T.Duplicate {
        var ok := Release(m.ptr);
        if ok { return DuplicateItem; }
        assert heap.LiveSet() - {m.ptr} == old(heap.LiveSet()) && m.ptr !in leaked;
        Leak(m.ptr);
        return HeapCorrupt;
      }
      InsertedAll(was, item, KeyOf);
      InsertedEntries(was, item);
      if !tree.dupes && old(IsMap()) { MapInserted(was, item); }
      return Added;
    }

    method Lookup(key: int) returns (r: T.FindResult)
      requires Valid()
      ensures r.Found? || r.NotFound?
      ensures r.Found? ==> r.node in Stored() && r.node in AvlLinks.Nodes(tree.shape) && KeyOf(r.node) == key
      ensures r.Found? <==> key in Contents()
      ensures r.Found? ==> (key, r.node.value) in Bag() && (IsMap() ==> r.node.value == Contents()[key])
    {
      hide T.AvlTree.Valid, H.MemoryHeap.Valid, HeapModel.Live, HousedIn;
      hide InOrder, AvlLinks.Nodes, Injective, Entries, MapOf;
      var blank: Value := *;
      assert allocated(AvlLinks.Nodes(tree.shape)) && allocated(heap.repr);
      var search := new Node(key, blank, 0);
      r := tree.FindNode(search);
      MapKeys(Stored());
      if r.Found? {
        StoredNodes(r.node);
        EntryOf(Stored(), r.node);
      }
    }

    method Find(key: int) returns (r: FindOutcome)
      requires Valid()
      ensures r == ItemNotFound <==> key !in Contents()
      ensures r.Found? ==> (key, r.value) in Bag() && (IsMap() ==> r.value == Contents()[key])
    {
      var f := Lookup(key);
      if f.NotFound? { return ItemNotFound; }
      return Found(f.node.value);
    }

    method Exists(key: int) returns (r: bool)
      requires Valid()
      ensures r <==> key in Contents()
    {
      var f := Lookup(key);
      return f.Found?;
    }

    /** Takes a stored node out of the tree; the heap does not notice. */
    method Remove(item: Node)
      requires Apart() && tree.Valid() && heap.Valid() && tree.Balanced()
      requires item in AvlLinks.Nodes(tree.shape)
      modifies tree, AvlLinks.Nodes(tree.shape)
      ensures Apart() && tree.Valid() && heap.Valid() && tree.dupes == old(tree.dupes)
      ensures unchanged(heap) && unchanged(this)
      ensures tree.Balanced() <==> tree.mended || !old(tree.LeavesRootTilted(item))
      ensures Stored() == Without(old(Stored()), item)
      ensures AvlLinks.Nodes(tree.shape) <= old(AvlLinks.Nodes(tree.shape))
    {
      hide H.MemoryHeap.Valid, InOrder, AvlLinks.Nodes, HeapModel.Live, T.AvlTree.Valid, Without, Avl;
      hide T.AvlTree.LeavesRootTilted;
      ghost var before := tree.shape;
      var e := tree.EraseNode(item);
      forall n | n in AvlLinks.Nodes(tree.shape) ensures n in AvlLinks.Nodes(before) {
        StoredNodes(n);
        WithoutMember(InOrder(before), item, n);
        AvlLinks.InOrderNode(before, n);
      }
    }

    /** Node number `i` in key order meets the guard of the rotation at the root
        that is written differently. */
    ghost predicate TiltsRoot(i: nat)
      reads tree, tree.root, if tree.root == null then {} else {tree.root.left, tree.root.right}
      reads if i < |Stored()| then {Stored()[i]} else {}
    {
      i < |Stored()| && tree.LeavesRootTilted(Stored()[i])
    }

    /** Erases the node that the search finds, number `i` in key order. */
    method Erase(key: int) returns (r: EraseOutcome, ghost i: nat)
      requires Valid() && tree.Balanced()
      modifies this`leaked, tree, AvlLinks.Nodes(tree.shape), heap.repr
      ensures Valid() && tree.dupes == old(tree.dupes)
      ensures heap.repr == old(heap.repr)
      ensures AvlLinks.Nodes(tree.shape) <= old(AvlLinks.Nodes(tree.shape))
      ensures r == NothingToErase <==> key !in old(Contents())
      ensures r == NothingToErase ==> Stored() == old(Stored()) && tree.Balanced() && leaked == old(leaked)
      ensures r != NothingToErase ==> i < old(|Stored()|) && old(Stored())[i].key == key
      ensures r != NothingToErase ==> old(Bag()) == Bag() + multiset{(key, old(Stored())[i].value)}
      ensures r != NothingToErase ==> (tree.Balanced() <==> tree.mended || !old(TiltsRoot(i)))
      ensures r != NothingToErase && old(IsMap()) ==> IsMap() && Contents() == old(Contents()) - {key}
      ensures r != NothingToErase ==>
                (r == EraseHeapCorrupt <==> !HeapModel.LiveWithin32(old(heap.views), old(Stored())[i].address))
      ensures r == EraseHeapCorrupt ==> |leaked| == old(|leaked|) + 1
      ensures r == EraseHeapCorrupt ==> heap.blocksAllocated * heap.myElementSize > FOUR_GB
      ensures r != EraseHeapCorrupt ==> leaked == old(leaked)
      ensures r == Erased ==> heap.blocksUsed < heap.blocksAllocated
      ensures heap.blocksAllocated <= old(heap.blocksAllocated) && heap.increaseSize == old(heap.increaseSize)
      ensures heap.myElementSize == old(heap.myElementSize)
      ensures heap.myGrowPercent == old(heap.myGrowPercent)
      ensures r == NothingToErase ==> heap.blocksAllocated == old(heap.blocksAllocated)
    {
      hide T.AvlTree.Valid, H.MemoryHeap.Valid, HeapModel.Live, HeapModel.LiveWithin32, Apart, HousedIn;
      hide InOrder, AvlLinks.Nodes, Injective, Entries, MapOf, Avl, T.AvlTree.LeavesRootTilted;
      assert allocated(AvlLinks.Nodes(tree.shape)) && allocated(heap.repr);
      var f := Lookup(key);
      if f.NotFound? { return NothingToErase, 0; }
      i :| i < |Stored()| && Stored()[i] == f.node;
      r := Discard(f.node);
    }

    method Discard(item: Node) returns (r: EraseOutcome)
      requires Valid() && tree.Balanced() && item in Stored() && item in AvlLinks.Nodes(tree.shape)
      modifies this`leaked, tree, AvlLinks.Nodes(tree.shape), heap.repr
      ensures Valid() && tree.dupes == old(tree.dupes) && heap.repr == old(heap.repr)
      ensures AvlLinks.Nodes(tree.shape) <= old(AvlLinks.Nodes(tree.shape))
      ensures r == Erased || r == EraseHeapCorrupt
      ensures old(Bag()) == Bag() + multiset{(item.key, item.value)}
      ensures tree.Balanced() <==> tree.mended || !old(tree.LeavesRootTilted(item))
      ensures old(IsMap()) ==> IsMap() && Contents() == old(Contents()) - {item.key}
      ensures r == EraseHeapCorrupt <==> !old(HeapModel.LiveWithin32(heap.views, item.address))
      ensures r == EraseHeapCorrupt ==> |leaked| == old(|leaked|) + 1
      ensures r == EraseHeapCorrupt ==> heap.blocksAllocated * heap.myElementSize > FOUR_GB
      ensures r != EraseHeapCorrupt ==> leaked == old(leaked)
      ensures r == Erased ==> heap.blocksUsed < heap.blocksAllocated
      ensures heap.blocksAllocated <= old(heap.blocksAllocated) && heap.increaseSize == old(heap.increaseSize)
      ensures heap.myElementSize == old(heap.myElementSize)
      ensures heap.myGrowPercent == old(heap.myGrowPercent)
    {
      hide T.AvlTree.Valid, H.MemoryHeap.Valid, HeapModel.Live, HeapModel.LiveWithin32, Apart, HousedIn;
      hide InOrder, AvlLinks.Nodes, AvlShape.Without, Injective, Image, Entries, MapOf, Avl, T.AvlTree.LeavesRootTilted;
      ghost var was := Stored();
      Remove(item);
      HousedWithout(was, item, leaked, heap.LiveSet(), heap.blocksUsed);
      EntriesWithout(was, item);
      if old(IsMap()) { MapWithout(was, item); }
      var ok := Release(item.address);
      if ok { return Erased; }
      Leak(item.address);
      return EraseHeapCorrupt;
    }

    method Clear()
      requires Valid()
      modifies this`leaked, tree, heap
      ensures Valid() && tree.Balanced() && IsMap() && leaked == {} && tree.dupes == old(tree.dupes)
      ensures Contents() == map[] && Bag() == multiset{} && heap.blocksUsed == 0 == tree.numElements
      ensures heap.repr == old(heap.repr) && AvlLinks.Nodes(tree.shape) == {}
      ensures heap.blocksAllocated == 0 && heap.increaseSize == old(heap.increaseSize)
      ensures heap.myElementSize == old(heap.myElementSize)
      ensures heap.myGrowPercent == old(heap.myGrowPercent)
    {
      NothingStored();
      hide T.AvlTree.Valid, H.MemoryHeap.Valid, HeapModel.Live, HousedIn, Injective, Entries, MapOf;
      heap.Clear();
      tree.Clear();
      leaked := {};
      assert Stored() == [] && AvlLinks.Nodes(tree.shape) == {};
    }

    /** The heap's count of elements in use is the number of nodes in the tree. */
    lemma CountIsNodes()
      requires Valid()
      ensures heap.blocksUsed == tree.numElements + |leaked|
      ensures IsMap() ==> heap.blocksUsed == |Contents()| + |leaked|
    {
      MapKeys(Stored());
    }

    ghost function Snapshot(): State
      reads this, tree, heap
    {
      State(Contents(), Pool(heap.blocksAllocated, heap.increaseSize, |leaked|))
    }

    lemma SnapshotUsed()
      requires Valid() && IsMap()
      ensures Used(Snapshot()) == heap.blocksUsed <= heap.blocksAllocated
    {
      CountIsNodes();
      heap.NeverOverfull();
    }

    method AddAsked(key: int, value: Value, granted: bool, hint: int) returns (a: Answer)
      requires Valid() && tree.Balanced() && IsMap() && !tree.dupes
      modifies this`leaked, tree, AvlLinks.Nodes(tree.shape), heap.repr
      ensures Valid() && tree.Balanced() && IsMap() && !tree.dupes
      ensures fresh(heap.repr - old(heap.repr)) && heap.myElementSize == old(heap.myElementSize)
      ensures heap.myGrowPercent == old(heap.myGrowPercent)
      ensures fresh(AvlLinks.Nodes(tree.shape) - old(AvlLinks.Nodes(tree.shape)))
      ensures Step(old(Snapshot()), Put(key, value, granted, hint), a, Snapshot(), heap.myElementSize, heap.myGrowPercent)
    {
      hide T.AvlTree.Valid, H.MemoryHeap.Valid, HeapModel.Live, HeapModel.LiveWithin32, Apart, Housed;
      hide InOrder, AvlLinks.Nodes, Injective, Entries, MapOf, Avl, H.MemoryHeap.Grantable;
      assert allocated(AvlLinks.Nodes(tree.shape)) && allocated(heap.repr);
      ghost var nodes := AvlLinks.Nodes(tree.shape);
      SnapshotUsed();
      var os := heap.Ask(granted, hint, heap.increaseSize);
      assert AvlLinks.Nodes(tree.shape) == nodes;
      label asked:
      var r := Add(key, value, os);
      forall n | n in AvlLinks.Nodes(tree.shape) && n !in nodes ensures fresh(n) {
        assert n in AvlLinks.Nodes(tree.shape) - nodes;
        assert fresh@asked(n);
      }
      SnapshotUsed();
      a := Tried(r == Added);
    }

    method EraseTold(key: int) returns (a: Answer)
      requires Valid() && tree.Balanced() && IsMap() && !tree.dupes
      modifies this`leaked, tree, AvlLinks.Nodes(tree.shape), heap.repr
      ensures Valid() && IsMap() && !tree.dupes
      ensures heap.repr == old(heap.repr) && heap.myElementSize == old(heap.myElementSize)
      ensures heap.myGrowPercent == old(heap.myGrowPercent)
      ensures AvlLinks.Nodes(tree.shape) <= old(AvlLinks.Nodes(tree.shape))
      ensures tree.Balanced() <==> tree.mended || !old(Tilting(key))
      ensures Step(old(Snapshot()), Drop(key), a, Snapshot(), heap.myElementSize, heap.myGrowPercent)
    {
      hide T.AvlTree.Valid, H.MemoryHeap.Valid, HeapModel.Live, HeapModel.LiveWithin32, Apart, Housed;
      hide InOrder, AvlLinks.Nodes, Entries, MapOf, Avl, T.AvlTree.LeavesRootTilted;
      SnapshotUsed();
      TiltingIs(key);
      var r, i := Erase(key);
      SnapshotUsed();
      a := Tried(r != NothingToErase);
    }

    /** Would a drop of this key leave the root tilted, in the written form? */
    ghost predicate Tilting(key: int)
      reads tree, tree.root, if tree.root == null then {} else {tree.root.left, tree.root.right}
      reads set n <- Stored()
    {
      exists i :: 0 <= i < |Stored()| && Stored()[i].key == key && TiltsRoot(i)
    }

    lemma TiltingIs(key: int)
      requires IsMap()
      ensures forall i | 0 <= i < |Stored()| && Stored()[i].key == key :: Tilting(key) <==> TiltsRoot(i)
      ensures Tilting(key) ==> key in Contents()
    {
      hide InOrder, Injective, T.AvlTree.LeavesRootTilted, MapOf;
      MapKeys(Stored());
      forall i | 0 <= i < |Stored()| && Stored()[i].key == key ensures Tilting(key) <==> TiltsRoot(i) {
        OneKey(Stored(), Stored()[i]);
      }
      if Tilting(key) {
        var i :| 0 <= i < |Stored()| && Stored()[i].key == key && TiltsRoot(i);
        assert KeyOf(Stored()[i]) in Image(Stored(), KeyOf);
      }
    }

    /** One command; a put comes with what the system would do if the heap has to grow. */
    method Execute(c: Command) returns (a: Answer)
      requires Valid() && tree.Balanced() && IsMap() && !tree.dupes
      modifies this`leaked, tree, heap, AvlLinks.Nodes(tree.shape), heap.repr
      ensures Valid() && IsMap() && !tree.dupes
      ensures tree.Balanced() <==> tree.mended || !c.Drop? || !old(Tilting(c.key))
      ensures heap.myElementSize == old(heap.myElementSize)
      ensures heap.myGrowPercent == old(heap.myGrowPercent)
      ensures forall o <- heap.repr :: o in old(heap.repr) || fresh(o)
      ensures forall n <- AvlLinks.Nodes(tree.shape) :: n in old(AvlLinks.Nodes(tree.shape)) || fresh(n)
      ensures Step(old(Snapshot()), c, a, Snapshot(), heap.myElementSize, heap.myGrowPercent)
    {
      hide T.AvlTree.Valid, H.MemoryHeap.Valid, HeapModel.Live, Apart, Housed;
      hide InOrder, AvlLinks.Nodes, Injective, Entries, MapOf, Avl, T.AvlTree.LeavesRootTilted;
      assert allocated(AvlLinks.Nodes(tree.shape)) && allocated(heap.repr);
      SnapshotUsed();
      match c {
        case Put(key, value, granted, hint) =>
          a := AddAsked(key, value, granted, hint);
        case Drop(key) =>
          a := EraseTold(key);
        case Wipe =>
          Clear();
          a := Tried(true);
        case Get(key) =>
          var f := Find(key);
          a := Got(f);
        case Has(key) =>
          var f := Exists(key);
          a := Told(f);
      }
    }

    /** Every run of commands is a run of the finite map, command by command. In the
        written form it goes on until a drop would leave the root tilted. */
    method Replay(cs: seq<Command>) returns (answers: seq<Answer>, ghost states: seq<State>)
      requires Valid() && tree.Balanced() && IsMap() && !tree.dupes
      modifies this`leaked, tree, heap, AvlLinks.Nodes(tree.shape), heap.repr
      ensures Valid() && tree.Balanced() && IsMap() && !tree.dupes
      ensures |answers| <= |cs| && RunOf(states, cs[..|answers|], answers, heap.myElementSize, heap.myGrowPercent)
      ensures states[0] == old(Snapshot()) && states[|answers|] == Snapshot()
      ensures |answers| < |cs| ==> !tree.mended && cs[|answers|].Drop? && Tilting(cs[|answers|].key)
    {
      hide Valid, IsMap, Contents, T.AvlTree.Balanced, AvlLinks.Nodes, Step, Tilting, Snapshot;
      answers, states := [], [Snapshot()];
      ghost var (nodes, parts) := (AvlLinks.Nodes(tree.shape), heap.repr);
      while |answers| < |cs|
        invariant Valid() && tree.Balanced() && IsMap() && !tree.dupes
        invariant heap.myElementSize == old(heap.myElementSize)
        invariant heap.myGrowPercent == old(heap.myGrowPercent)
        invariant forall o <- heap.repr :: o in parts || fresh(o)
        invariant forall n <- AvlLinks.Nodes(tree.shape) :: n in nodes || fresh(n)
        invariant |answers| <= |cs| && RunOf(states, cs[..|answers|], answers, heap.myElementSize, heap.myGrowPercent)
        invariant states[0] == old(Snapshot()) && states[|answers|] == Snapshot()
      {
        var c := cs[|answers|];
        if !tree.mended && c.Drop? {
          var tilting := WouldTilt(c.key);
          if tilting { return; }
        }
        var a := Execute(c);
        RunGrows(states, cs[..|answers|], answers, c, a, Snapshot(), heap.myElementSize, heap.myGrowPercent);
        assert cs[..|answers| + 1] == cs[..|answers|] + [c];
        answers, states := answers + [a], states + [Snapshot()];
      }
    }

    method WouldTilt(key: int) returns (r: bool)
      requires Valid() && IsMap()
      ensures Valid() && IsMap() && (r <==> Tilting(key))
    {
      hide T.AvlTree.Valid, H.MemoryHeap.Valid, HeapModel.Live, HousedIn, Injective;
      hide InOrder, AvlLinks.Nodes, Entries, MapOf, T.AvlTree.LeavesRootTilted;
      assert allocated(AvlLinks.Nodes(tree.shape)) && allocated(heap.repr);
      var f := Lookup(key);
      TiltingIs(key);
      if f.NotFound? { return false; }
      r := tree.LeavesRootTilted(f.node);
    }
  }
}
