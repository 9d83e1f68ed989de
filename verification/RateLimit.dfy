/** The sender's rate limiter: a quota for each slice of time, and waiting for its end. */
module RateSpec {
  import opened Basics

  /** Of `total` queries in `slices` slices, those of the first `k`: every slice gets
      the quotient, and the last ones one more each until the remainder is used up. */
  function Quota(total: nat, slices: nat, k: nat): nat {
    if slices == 0 then 0 else k * (total / slices) + Positive(k - (slices - total % slices))
  }

  lemma QuotaIs(total: nat, slices: nat, k: nat)
    requires slices > 0
    ensures Quota(total, slices, k) ==
            k * (total / slices) + if k > slices - total % slices then k - (slices - total % slices) else 0
  {
  }

  function Positive(x: int): nat {
    if x > 0 then x else 0
  }

  function Min(a: int, b: int): int {
    if a < b then a else b
  }

  /** What is left after `k` slices: a quotient for each slice to come, and the
      remainder as far as slices are left for it. */
  lemma LeftOver(total: nat, slices: nat, k: nat)
    requires 0 < slices && k <= slices
    ensures total - Quota(total, slices, k) ==
            (slices - k) * (total / slices) + Min(total % slices, slices - k)
  {
    var (q, r) := (total / slices, total % slices);
    assert total == slices * q + r;
    assert slices * q - k * q == (slices - k) * q;
  }

  /** Dividing what is left by the slices that are left gives the next quota. */
  lemma NextQuota(total: nat, slices: nat, k: nat)
    requires k < slices
    ensures Quota(total, slices, k) <= total
    ensures (total - Quota(total, slices, k)) / (slices - k) == Quota(total, slices, k + 1) - Quota(total, slices, k)
  {
    var (q, r, n) := (total / slices, total % slices, slices - k);
    LeftOver(total, slices, k);
    var left := total - Quota(total, slices, k);
    assert (k + 1) * q == k * q + q;
    if r >= n {
      assert n * q + n == n * (q + 1);
      Division(left, n, q + 1, 0);
    } else {
      Division(left, n, q, r);
    }
  }

  lemma NoneYet(total: nat, slices: nat)
    ensures Quota(total, slices, 0) == 0
    ensures slices > 0 ==> Quota(total, slices, slices) == total
  {
    if slices > 0 { QuotaComplete(total, slices); }
  }

  /** All slices together use up everything. */
  lemma QuotaComplete(total: nat, slices: nat)
    requires slices > 0
    ensures Quota(total, slices, slices) == total && Quota(total, slices, 0) == 0
  {
    LeftOver(total, slices, slices);
  }

  lemma {:induction false} QuotaGrows(total: nat, slices: nat, k: nat, l: nat)
    requires k <= l <= slices && slices > 0
    ensures Quota(total, slices, k) <= Quota(total, slices, l)
    decreases l
  {
    if k < l {
      QuotaGrows(total, slices, k, l - 1);
      NextQuota(total, slices, l - 1);
    }
  }

  // ----------------------------------------------------------- shares of the threads

  /** The rate for each thread: what is left, divided by the threads that are left. */
  function Share(queryrate: nat, threads: nat, i: nat): nat
    requires i < threads
  {
    QuotaGrows(queryrate, threads, i, i + 1);
    Quota(queryrate, threads, i + 1) - Quota(queryrate, threads, i)
  }

  function Total(s: seq<nat>): nat {
    if s == [] then 0 else Total(s[..|s| - 1]) + s[|s| - 1]
  }

  /** Every thread gets the quotient or one more; so none is left without a share
      exactly if there are at least as many queries as threads. */
  lemma ShareBounds(queryrate: nat, threads: nat, i: nat)
    requires i < threads
    ensures queryrate / threads <= Share(queryrate, threads, i) <= queryrate / threads + 1
    ensures Share(queryrate, threads, i) == queryrate / threads + (if i < threads - queryrate % threads then 0 else 1)
  {
    var q := queryrate / threads;
    assert (i + 1) * q == i * q + q;
  }

  lemma AllShares(queryrate: nat, threads: nat)
    requires threads > 0
    ensures (forall i | 0 <= i < threads :: Share(queryrate, threads, i) >= 1) <==> queryrate >= threads
  {
    forall i | 0 <= i < threads
      ensures Share(queryrate, threads, i) == queryrate / threads + (if i < threads - queryrate % threads then 0 else 1)
    {
      ShareBounds(queryrate, threads, i);
    }
    if queryrate >= threads {
      if queryrate / threads == 0 { QuotientZero(queryrate, threads); }
    } else {
      Division(queryrate, threads, 0, queryrate);
      assert Share(queryrate, threads, 0) == 0;
    }
  }

  /** So many threads get no share: all those in front that the queries do not reach. */
  function Shareless(queryrate: nat, threads: nat): (u: nat)
    ensures u <= threads && (u == 0 <==> queryrate >= threads)
  {
    if queryrate >= threads then 0 else threads - queryrate
  }

  lemma SharelessExactly(queryrate: nat, threads: nat, i: nat)
    requires i < threads
    ensures Share(queryrate, threads, i) == 0 <==> i < Shareless(queryrate, threads)
    ensures Quota(queryrate, threads, Shareless(queryrate, threads)) == 0
  {
    ShareBounds(queryrate, threads, i);
    if queryrate >= threads {
      if queryrate / threads == 0 { QuotientZero(queryrate, threads); }
    } else {
      Division(queryrate, threads, 0, queryrate);
    }
  }

  lemma QuotientZero(a: nat, m: nat)
    requires m > 0 && a / m == 0
    ensures a < m
  {
  }
}

module RateLimit {
  import opened Basics
  import opened RateSpec

  /** What the socket answers: how many bytes were taken, and the error if negative. */
  datatype Outcome = Outcome(n: int, errno: nat)

  /** The clock and the network: one reading or one outcome after the other. */
  class World {
    const clock: nat -> real
    const network: nat -> Outcome
    const stop: nat -> bool
    const ready: nat -> bool
    var tick: nat
    var packet: nat

    /** Time never runs backwards and passes every bound. */
    ghost predicate Valid() {
      && (forall i, j | 0 <= i <= j :: clock(i) <= clock(j))
      && (forall t :: Reaches(t))
    }

    ghost predicate Reaches(t: real) {
      exists n: nat :: clock(n) >= t
    }

    /** No reading is more than `d` later than the one before. */
    ghost predicate Quick(d: real) {
      forall i: nat :: clock(i + 1) <= clock(i) + d
    }

    lemma {:induction false} QuickSteps(d: real, i: nat, n: nat)
      requires Quick(d)
      ensures clock(i + n) <= clock(i) + n as real * d
      decreases n
    {
      if n > 0 {
        QuickSteps(d, i, n - 1);
        assert clock(i + (n - 1) + 1) <= clock(i + (n - 1)) + d;
        OneMore(n, d);
      }
    }

    lemma OneMore(n: nat, d: real)
      requires n > 0
      ensures n as real * d == (n - 1) as real * d + d
    {
    }

    lemma Later(i: nat, j: nat)
      requires Valid() && i <= j
      ensures clock(i) <= clock(j)
    {
    }

    lemma Step(d: real, i: nat)
      requires Valid() && Quick(d)
      ensures clock(i + 1) <= clock(i) + d && d >= 0.0
    {
      NeverBack(d);
    }

    /** The stop is asked for from reading number `t` on, for good. */
    ghost predicate StopFrom(t: nat) {
      forall i :: t <= i ==> stop(i)
    }

    lemma NotSince(t: nat, i: nat)
      requires !stop(i)
      ensures StopFrom(t) ==> i < t
    {
    }

    ghost predicate NoStop(from: nat, to: nat) {
      forall t :: from < t <= to ==> !stop(t)
    }

    lemma NeverBack(d: real)
      requires Valid() && Quick(d)
      ensures d >= 0.0
    {
      assert clock(0) <= clock(0 + 1) <= clock(0) + d;
    }

    lemma Passing(t: real) returns (n: nat)
      requires Valid()
      ensures clock(n) >= t
    {
      assert Reaches(t);
      n :| clock(n) >= t;
    }

    /** An earlier time was read earlier. */
    lemma Order(i: nat, j: nat)
      requires Valid()
      ensures clock(i) < clock(j) ==> i < j
    {
      if j <= i { assert clock(j) <= clock(i); }
    }

    method Now() returns (t: real)
      modifies this`tick
      ensures t == clock(old(tick)) && tick == old(tick) + 1
    {
      t := clock(tick);
      tick := tick + 1;
    }

    method Send() returns (o: Outcome)
      modifies this`packet
      ensures o == network(old(packet)) && packet == old(packet) + 1
    {
      o := network(packet);
      packet := packet + 1;
    }
  }

  /** An attempt to send: the slice it belongs to and the time stamp in the packet. */
  datatype Attempt = Attempt(slice: nat, time: real)

  class SenderThread {
    var runtime: nat
    var queryrate: nat
    var zeitscheibe: real
    var counterSend: nat
    var counter0bytes: nat
    var errors: nat
    const counterErrorcodes: array<nat>
    const packetsize: nat
    ghost var attempts: seq<Attempt>

    ghost predicate Valid()
      reads this, counterErrorcodes
    {
      && zeitscheibe > 0.0 && counterErrorcodes.Length == 255
      && counterSend + counter0bytes + errors == |attempts|
      && Total(counterErrorcodes[..]) <= errors
    }

    constructor (packetsize: nat)
      ensures counterErrorcodes.Length == 255 && fresh(counterErrorcodes) && this.packetsize == packetsize
    {
      this.packetsize := packetsize;
      counterErrorcodes := new nat[255];
    }

    /** Every attempt is counted once: as sent, as an error or as neither. */
    method SendPacket(w: World, ghost z: nat)
      requires Valid() && w.Valid()
      modifies this`counterSend, this`counter0bytes, this`errors, this`attempts, counterErrorcodes, w`tick, w`packet
      ensures Valid() && attempts == old(attempts) + [Attempt(z, w.clock(old(w.tick)))] && w.tick == old(w.tick) + 1
      ensures w.packet == old(w.packet) + 1
      ensures
        var o := w.network(old(w.packet));
        && counterSend == old(counterSend) + (if o.n > 0 && o.n == packetsize then 1 else 0)
        && errors == old(errors) + (if o.n < 0 then 1 else 0)
        && counter0bytes == old(counter0bytes) + (if o.n >= 0 && !(o.n > 0 && o.n == packetsize) then 1 else 0)
        && forall e | 0 <= e < 255 ::
             counterErrorcodes[e] == old(counterErrorcodes[e]) + (if o.n < 0 && o.errno == e then 1 else 0)
    {
      var time := w.Now();
      var o := w.Send();
      if o.n > 0 && o.n == packetsize {
        counterSend := counterSend + 1;
      } else if o.n < 0 {
        if o.errno < 255 {
          TotalAt(counterErrorcodes[..], o.errno);
          counterErrorcodes[o.errno] := counterErrorcodes[o.errno] + 1;
          assert counterErrorcodes[..] == old(counterErrorcodes[..])[o.errno := old(counterErrorcodes[o.errno]) + 1];
        }
        errors := errors + 1;
      } else {
        counter0bytes := counter0bytes + 1;
      }
      attempts := attempts + [Attempt(z, time)];
    }

    /** All packets of a slice, one right after the other. */
    method SendSlice(w: World, z: nat, count: nat)
      requires Valid() && w.Valid()
      modifies this`counterSend, this`counter0bytes, this`errors, this`attempts, counterErrorcodes, w`tick, w`packet
      ensures Valid() && w.tick == old(w.tick) + count && |attempts| == |old(attempts)| + count
      ensures old(attempts) <= attempts
      ensures forall j | |old(attempts)| <= j < |attempts| ::
                attempts[j].slice == z && attempts[j].time >= w.clock(old(w.tick))
      ensures w.packet - old(w.packet) == |attempts| - |old(attempts)|
    {
      for i := 0 to count
        invariant Valid() && w.tick == old(w.tick) + i && |attempts| == |old(attempts)| + i
        invariant old(attempts) <= attempts && w.packet == old(w.packet) + i
        invariant forall j | |old(attempts)| <= j < |attempts| ::
                    attempts[j].slice == z && attempts[j].time >= w.clock(old(w.tick))
      {
        assert w.clock(old(w.tick)) <= w.clock(w.tick);
        SendPacket(w, z);
      }
    }

    /** Sleeps until the deadline has passed. */
    method WaitFor(w: World, deadline: real, ghost d: real) returns (now: real)
      requires w.Valid()
      modifies w`tick
      ensures now >= deadline && w.tick > old(w.tick) && now == w.clock(w.tick - 1)
      ensures w.Quick(d) && w.clock(old(w.tick)) <= deadline ==> now <= deadline + d
    {
      ghost var n := w.Passing(deadline);
      now := w.Now();
      if w.Quick(d) { w.NeverBack(d); }
      while now < deadline
        invariant w.tick > old(w.tick) && now == w.clock(w.tick - 1)
        invariant w.Quick(d) && w.clock(old(w.tick)) <= deadline ==> now <= deadline + d
        decreases n + 1 - w.tick
      {
        w.Order(w.tick - 1, n);
        assert w.Quick(d) ==> w.clock(w.tick - 1 + 1) <= w.clock(w.tick - 1) + d;
        now := w.Now();
      }
    }

    /** One slice: its share of what is left is sent, then its end is awaited. */
    method RunSlice(w: World, z: nat, rest: nat, next: real, ghost first: nat, ghost start: real, ghost d: real)
      returns (left: nat, now: real)
      requires Valid() && w.Valid() && z < Slices() && first <= |attempts|
      requires |attempts| - first + rest == Work()
      requires |attempts| - first == Quota(Work(), Slices(), z)
      requires Paced(attempts, first, start) && w.clock(w.tick) >= Due(start, z)
      requires next == Due(start, z + 1) && InStep(w, w.tick, start, z, d)
      modifies this`counterSend, this`counter0bytes, this`errors, this`attempts, counterErrorcodes, w`tick, w`packet
      ensures Valid() && old(attempts) <= attempts && w.tick > old(w.tick)
      ensures |attempts| - first + left == Work()
      ensures |attempts| - first == Quota(Work(), Slices(), z + 1)
      ensures Paced(attempts, first, start) && now >= next && now == w.clock(w.tick - 1)
      ensures Met(w, w.tick - 1, start, z + 1, d)
      ensures w.packet - old(w.packet) == |attempts| - |old(attempts)|
    {
      InTime(w, z, start, d, w.tick);
      hide Quota, Paced, Work, Due, Slices, Valid, World.Valid, World.Quick, Unhurried, InStep;
      var restscheiben := Slices() - z;
      var share := rest / restscheiben;
      NextQuota(Work(), Slices(), z);
      QuotaComplete(Work(), Slices());
      QuotaGrows(Work(), Slices(), z + 1, Slices());
      if restscheiben == 1 { share := rest; }
      ghost var before := attempts;
      SendSlice(w, z, share);
      StillPaced(before, attempts, first, start, z);
      left := rest - share;
      now := WaitFor(w, next, d);
    }

    /** A slice leaves time for its share and a few readings more, if none takes longer
        than `d`. */
    ghost predicate Unhurried(d: real)
      reads this`runtime, this`queryrate, this`zeitscheibe
    {
      Slices() > 0 && (Work() / Slices() + 4) as real * d <= zeitscheibe
    }

    /** Reading number `i`, with which slice `k` begins, is hardly late. */
    ghost predicate InStep(w: World, i: nat, start: real, k: nat, d: real)
      reads this`runtime, this`queryrate, this`zeitscheibe
    {
      w.Quick(d) && Unhurried(d) ==> w.clock(i) <= Due(start, k) + 3.0 * d
    }

    /** Reading number `i`, which ends the slice before `k`, is late by one reading at most. */
    ghost predicate Met(w: World, i: nat, start: real, k: nat, d: real)
      reads this`runtime, this`queryrate, this`zeitscheibe
    {
      w.Quick(d) && Unhurried(d) ==> w.clock(i) <= Due(start, k) + d
    }

    /** Who begins a slice hardly late has sent its share before it ends. */
    lemma InTime(w: World, z: nat, start: real, d: real, i: nat)
      requires w.Valid() && z < Slices() && InStep(w, i, start, z, d)
      ensures Quota(Work(), Slices(), z) <= Quota(Work(), Slices(), z + 1)
      ensures w.Quick(d) && Unhurried(d) ==>
                w.clock(i + (Quota(Work(), Slices(), z + 1) - Quota(Work(), Slices(), z))) <= Due(start, z + 1)
    {
      QuotaGrows(Work(), Slices(), z, z + 1);
      ShareBounds(Work(), Slices(), z);
      DueNext(start, z);
      hide Work, Slices, Quota, Due, World.Valid;
      var share := Quota(Work(), Slices(), z + 1) - Quota(Work(), Slices(), z);
      if w.Quick(d) && Unhurried(d) {
        w.NeverBack(d);
        w.QuickSteps(d, i, share);
        ShareFits(share, Work() / Slices(), zeitscheibe, d);
        hide *;
      }
    }

    /** The next readings begin the next slice in step, and still within the running time. */
    lemma AfterSlice(w: World, i: nat, start: real, k: nat, d: real)
      requires w.Valid() && Met(w, i, start, k, d)
      ensures InStep(w, i + 1, start, k, d) && InStep(w, i + 2, start, k, d)
      ensures w.Quick(d) && Unhurried(d) && k < Slices() ==> w.clock(i + 1) < start + runtime as real
    {
      if w.Quick(d) && Unhurried(d) {
        w.Step(d, i);
        w.Step(d, i + 1);
        hide World.Quick, World.Valid, Due, Slices, Work;
        if k < Slices() { EndsLater(start, k, d); }
      }
    }

    /** Before the last slice ends, the running time is not over, not even shortly after. */
    lemma EndsLater(start: real, k: nat, d: real)
      requires k < Slices() && Unhurried(d) && d >= 0.0
      ensures Due(start, k) + 2.0 * d < start + runtime as real
    {
      SlicesFit();
      DueIs(start, k);
      hide Due, Slices, Work;
      TimeLeft(Slices(), k, Work() / Slices(), zeitscheibe, d, runtime as real);
    }

    lemma TimeLeft(n: nat, k: nat, q: nat, z: real, d: real, t: real)
      requires k < n && z > 0.0 && d >= 0.0 && (q + 4) as real * d <= z && n as real * z <= t
      ensures k as real * z + 2.0 * d < t
    {
      SlowerStill(k + 1, n, z);
      Spread(k, 1, z);
      SlowerStill(4, q + 4, d);
      assert k as real * z + 1.0 * z <= t;
      assert 4.0 * d <= z;
    }

    lemma ShareFits(share: nat, q: nat, z: real, d: real)
      requires share <= q + 1 && d >= 0.0 && (q + 4) as real * d <= z
      ensures share as real * d + 3.0 * d <= z
    {
      SlowerStill(share + 3, q + 4, d);
      Spread(share, 3, d);
    }

    lemma DueIs(start: real, k: nat)
      ensures Due(start, k) == start + k as real * zeitscheibe
    {
    }

    /** The slices are the whole ones that fit into the running time. */
    lemma SlicesExactly()
      requires zeitscheibe > 0.0
      ensures Slices() as real * zeitscheibe <= runtime as real < (Slices() + 1) as real * zeitscheibe
    {
      var r := runtime as real / zeitscheibe;
      assert r >= 0.0;
      assert Slices() == r.Floor;
      TimesBack(runtime as real, zeitscheibe);
      Between(Slices(), r, runtime as real, zeitscheibe);
    }

    lemma Between(n: nat, r: real, t: real, z: real)
      requires z > 0.0 && r * z == t && n == r.Floor
      ensures n as real * z <= t < (n + 1) as real * z
    {
      var m := n as real;
      assert m <= r < m + 1.0;
      TimesLess(r, m + 1.0, z);
      assert (m + 1.0) * z == m * z + z;
      if m < r { TimesLess(m, r, z); }
      assert t < m * z + z;
      assert (n + 1) as real == m + 1.0;
      assert (n + 1) as real * z == (m + 1.0) * z;
    }

    lemma TimesBack(t: real, z: real)
      requires z > 0.0
      ensures t / z * z == t
    {
    }

    lemma TimesLess(a: real, b: real, z: real)
      requires a < b && z > 0.0
      ensures a * z < b * z
    {
    }

    lemma LastSlice(start: real)
      requires zeitscheibe > 0.0
      ensures Due(start, Slices()) > start + runtime as real - zeitscheibe
    {
      SlicesExactly();
      DueIs(start, Slices());
      Spread(Slices(), 1, zeitscheibe);
    }

    lemma WorkIs()
      ensures Work() == runtime * queryrate
    {
    }

    lemma SlicesFit()
      requires Slices() > 0
      ensures zeitscheibe > 0.0 && Slices() as real * zeitscheibe <= runtime as real
    {
      Whole(Slices(), runtime as real, zeitscheibe);
    }

    lemma SlowerStill(m: nat, n: nat, d: real)
      requires m <= n && d >= 0.0
      ensures m as real * d <= n as real * d
    {
    }

    lemma Spread(m: nat, n: nat, d: real)
      ensures (m + n) as real * d == m as real * d + n as real * d
    {
    }

    lemma Whole(n: nat, t: real, z: real)
      requires z > 0.0 && n as real <= t / z
      ensures n as real * z <= t
    {
      assert t / z * z == t;
    }

    /** Somebody stopped the run, or the running time was over. */
    ghost predicate CutShort(w: World, from: nat, to: nat, start: real)
      reads this`runtime
    {
      exists t :: from < t <= to && (w.stop(t) || w.clock(t) >= start + runtime as real)
    }

    lemma Cut(w: World, from: nat, to: nat, t: nat, start: real)
      requires from < t <= to && (w.stop(t) || w.clock(t) >= start + runtime as real)
      ensures CutShort(w, from, to, start)
      ensures w.stop(t) ==> !w.NoStop(from, to)
    {
    }

    lemma BeginsInStep(w: World, from: nat, start: real, d: real)
      requires w.Valid() && start == w.clock(from)
      ensures InStep(w, from + 2, start, 0, d)
    {
      DueNext(start, 0);
      if w.Quick(d) && Unhurried(d) {
        w.Step(d, from);
        w.Step(d, from + 1);
      }
    }

    /** Slices the running time and sends each slice's share, never ahead of time.
        `k` is the number of slices that were worked through before the end or a stop.
        On a clock that never takes longer than `d` between two readings, and with time
        to spare in each slice, only a stop ends the run early. */
    method RunWithRateLimit(w: World, ghost d: real) 
      returns (rest: nat, k: nat, start: real, ghost n: nat, ghost ends: seq<nat>)
      requires Valid() && w.Valid()
      modifies this`counterSend, this`counter0bytes, this`errors, this`attempts, counterErrorcodes, w`tick, w`packet
      ensures Valid() && start == w.clock(old(w.tick)) && k <= Slices()
      ensures old(attempts) <= attempts
      ensures |attempts| - |old(attempts)| + rest == Work()
      ensures |attempts| - |old(attempts)| == Quota(Work(), Slices(), k)
      ensures k == Slices() > 0 ==> rest == 0
      ensures Paced(attempts, |old(attempts)|, start)
      ensures k < Slices() ==> CutShort(w, old(w.tick), w.tick, start)
      ensures w.Quick(d) && Unhurried(d) && w.NoStop(old(w.tick), w.tick) ==> k == Slices()
      ensures n == Slices() && n as real * zeitscheibe <= runtime as real < (n + 1) as real * zeitscheibe
      ensures n > 0 ==>
                |attempts| - |old(attempts)| == k * (runtime * queryrate / n)
                                                + if k > n - runtime * queryrate % n then k - (n - runtime * queryrate % n) else 0
      ensures k < n || w.clock(w.tick) > start + runtime as real - zeitscheibe
      ensures EndsAt(w, old(w.tick), w.tick, ends) && |ends| == k
      ensures forall j | |old(attempts)| <= j < |attempts| ::
                attempts[j].time >= start + attempts[j].slice as real * zeitscheibe
      ensures w.packet - old(w.packet) == |attempts| - |old(attempts)|
    {
      hide Quota, Paced, Work, Due, Slices, Valid, World.Valid, World.Quick, World.NoStop, Unhurried, CutShort;
      ValidSlice();
      SlicesExactly();
      n := Slices();
      rest, k, start, ends := SendSlices(w, d);
      LastSlice(start);
      WorkIs();
      PacedMeans(attempts, |old(attempts)|, start);
      if n > 0 { QuotaIs(Work(), n, k); }
    }

    lemma PacedMeans(s: seq<Attempt>, first: nat, start: real)
      requires Paced(s, first, start)
      ensures forall j | first <= j < |s| :: s[j].time >= start + s[j].slice as real * zeitscheibe
    {
      forall j | first <= j < |s| ensures s[j].time >= start + s[j].slice as real * zeitscheibe {
        assert InTurn(s[j], j - first, start);
        DueIs(start, s[j].slice);
      }
    }

    lemma ValidSlice()
      requires Valid()
      ensures zeitscheibe > 0.0
    {
    }

    /** The slices, one after the other. */
    method SendSlices(w: World, ghost d: real) returns (rest: nat, k: nat, start: real, ghost ends: seq<nat>)
      requires Valid() && w.Valid()
      modifies this`counterSend, this`counter0bytes, this`errors, this`attempts, counterErrorcodes, w`tick, w`packet
      ensures Valid() && start == w.clock(old(w.tick)) && k <= Slices()
      ensures old(attempts) <= attempts
      ensures |attempts| - |old(attempts)| + rest == Work()
      ensures |attempts| - |old(attempts)| == Quota(Work(), Slices(), k)
      ensures k == Slices() > 0 ==> rest == 0
      ensures Paced(attempts, |old(attempts)|, start)
      ensures k < Slices() ==> CutShort(w, old(w.tick), w.tick, start)
      ensures w.Quick(d) && Unhurried(d) && w.NoStop(old(w.tick), w.tick) ==> k == Slices()
      ensures w.clock(w.tick) >= Due(start, k)
      ensures w.packet - old(w.packet) == |attempts| - |old(attempts)|
      ensures EndsKept(w, old(w.tick), w.tick, ends, w.clock(old(w.tick) + 1) + runtime as real) && |ends| == k
    {
      hide Quota, Paced, Work, Due, Slices, Valid, World.Valid, World.Quick, World.NoStop, Unhurried, Met, InStep, CutShort, Heeds;
      hide World.StopFrom, Looked, EndsKept;
      ghost var first := |attempts|;
      var total := Slices();
      rest := Work();
      start := w.Now();
      var next, now, check := start, start, start + 0.1;
      var begun := w.Now();
      var end := begun + runtime as real;
      NoneYet(Work(), total);
      k := 0;
      DueNext(start, 0);
      w.Later(old(w.tick), w.tick);
      w.Later(old(w.tick), old(w.tick) + 1);
      NothingPaced(attempts, first, start);
      ghost var from := old(w.tick);
      BeginsInStep(w, from, start, d);
      ends := [];
      ghost var at: nat := from + 1;
      NoEnds(w, from, check, end);
      while k < total
        invariant Valid() && k <= total && old(attempts) <= attempts && w.tick > from + 1
        invariant |attempts| - first + rest == Work()
        invariant |attempts| - first == Quota(Work(), total, k)
        invariant w.packet - old(w.packet) == |attempts| - first
        invariant next == Due(start, k) && w.clock(w.tick) >= next
        invariant Paced(attempts, first, start)
        invariant InStep(w, w.tick, start, k, d)
        invariant |ends| == k && EndsKept(w, from, w.tick, ends, end) && Looked(w, from, at, check, end)
        invariant k > 0 ==> Heeds(w, from, ends[k - 1], end)
      {
        ghost var t := w.tick;
        next := next + zeitscheibe;
        DueNext(start, k);
        rest, now := RunSlice(w, k, rest, next, first, start, d);
        ghost var i := w.tick - 1;
        k := k + 1;
        var over;
        check, over, at := LookAround(w, now, check, end, from, start, k, d, at);
        MoreEnds(w, from, t, ends, i, w.tick, end);
        ends := ends + [i];
        if over { break; }
      }
    }

    ghost predicate EndsKept(w: World, from: nat, to: nat, ends: seq<nat>, end: real) {
      && InOrder(ends, from + 1, to) && (ends == [] ==> to == from + 2)
      && forall j | 0 <= j < |ends| - 1 :: Heeds(w, from, ends[j], end)
    }

    lemma NoEnds(w: World, from: nat, check: real, end: real)
      requires check == w.clock(from) + 0.1 && w.clock(from) <= end
      ensures Looked(w, from, from + 1, check, end) && EndsKept(w, from, from + 2, [], end)
    {
    }

    lemma MoreEnds(w: World, from: nat, t: nat, ends: seq<nat>, i: nat, to: nat, end: real)
      requires EndsKept(w, from, t, ends, end) && (ends != [] ==> Heeds(w, from, ends[|ends| - 1], end))
      requires from + 1 < t <= i < to <= i + 2
      ensures EndsKept(w, from, to, ends + [i], end)
    {
      hide Heeds;
    }

    /** The readings that end the slices, in order; nothing goes on behind the last but a
        look. No other slice begins more than a tenth of a second after a stop, or after the
        end of the running time. */
    ghost predicate EndsAt(w: World, from: nat, to: nat, ends: seq<nat>)
      reads this`runtime
    {
      EndsKept(w, from, to, ends, w.clock(from + 1) + runtime as real)
    }

    /** Increasing, behind number `low`, and up to two in front of number `high`. */
    ghost predicate InOrder(ends: seq<nat>, low: nat, high: nat) {
      && (forall j | 0 <= j < |ends| :: low < ends[j] < high)
      && (forall i, j | 0 <= i < j < |ends| :: ends[i] < ends[j])
      && (ends != [] ==> high <= ends[|ends| - 1] + 2)
    }

    /** Reading number `i` is within a tenth of a second of any stop that was asked for
        before, and of the end of the running time. */
    ghost predicate Heeds(w: World, from: nat, i: nat, end: real) {
      && w.clock(i) <= end + 0.1
      && forall t | from <= t <= i && w.StopFrom(t) :: w.clock(i) <= w.clock(t) + 0.1
    }

    /** The last look, right behind reading number `at - 1`, has found no stop; or there was
        none yet. The next one is due a tenth of a second later. */
    ghost predicate Looked(w: World, from: nat, at: nat, check: real, end: real) {
      && from < at && check == w.clock(at - 1) + 0.1 && w.clock(at - 1) <= end
      && (at > from + 1 ==> !w.stop(at))
    }

    lemma NotDueYet(w: World, from: nat, i: nat, at: nat, check: real, end: real)
      requires w.Valid() && Looked(w, from, at, check, end) && w.clock(i) <= check
      ensures Heeds(w, from, i, end)
    {
      forall t | from <= t <= i && w.StopFrom(t) ensures w.clock(i) <= w.clock(t) + 0.1 {
        if at > from + 1 { w.NotSince(t, at); }
        w.Later(at - 1, t);
      }
    }

    lemma FoundNone(w: World, from: nat, i: nat, end: real)
      requires w.Valid() && !w.stop(i + 1) && w.clock(i) <= end && i > from
      ensures Heeds(w, from, i, end) && Looked(w, from, i + 1, w.clock(i) + 0.1, end)
    {
      forall t | from <= t <= i ensures !w.StopFrom(t) { w.NotSince(t, i + 1); }
    }

    /** Now and then the thread looks whether it should stop, or the time is over. */
    method LookAround(w: World, now: real, check: real, end: real,
                      ghost from: nat, ghost start: real, ghost k: nat, ghost d: real, ghost at: nat)
      returns (next: real, over: bool, ghost at': nat)
      requires w.Valid() && w.tick > from + 1 && now == w.clock(w.tick - 1) && Met(w, w.tick - 1, start, k, d)
      requires end >= start + runtime as real && Looked(w, from, at, check, end)
      modifies w`tick
      ensures old(w.tick) <= w.tick <= old(w.tick) + 1 && w.clock(w.tick) >= now && InStep(w, w.tick, start, k, d)
      ensures over ==> CutShort(w, from, w.tick, start)
      ensures over && w.Quick(d) && Unhurried(d) && w.NoStop(from, w.tick) ==> k >= Slices()
      ensures !over ==> Looked(w, from, at', next, end) && Heeds(w, from, old(w.tick) - 1, end)
    {
      ghost var i: nat := w.tick - 1;
      AtLook(w, from, start, k, d, i, at, check, end);
      hide *;
      next, over, at' := check, false, at;
      if now > check {
        next := now + 0.1;
        over := w.stop(w.tick);
        if !over {
          var t := w.Now();
          over := t >= end;
          at' := i + 1;
        }
      }
    }

    /** What reading number `i`, with which a slice ends, says with or without a look. */
    lemma AtLook(w: World, from: nat, start: real, k: nat, d: real, i: nat, at: nat, check: real, end: real)
      requires w.Valid() && i > from && Met(w, i, start, k, d) && Looked(w, from, at, check, end)
      requires end >= start + runtime as real
      ensures InStep(w, i + 1, start, k, d) && InStep(w, i + 2, start, k, d)
      ensures w.Quick(d) && Unhurried(d) && k < Slices() ==> w.clock(i + 1) < start + runtime as real
      ensures w.clock(i) <= w.clock(i + 1) && w.clock(i) <= w.clock(i + 2)
      ensures w.clock(i) <= check ==> Heeds(w, from, i, end)
      ensures !w.stop(i + 1) && w.clock(i) <= end ==>
                Heeds(w, from, i, end) && Looked(w, from, i + 1, w.clock(i) + 0.1, end)
      ensures w.stop(i + 1) ==> CutShort(w, from, i + 1, start) && !w.NoStop(from, i + 1)
      ensures w.clock(i + 1) >= end ==> CutShort(w, from, i + 2, start)
    {
      AfterSlice(w, i, start, k, d);
      w.Later(i, i + 1);
      w.Later(i, i + 2);
      if w.stop(i + 1) { Cut(w, from, i + 1, i + 1, start); }
      if w.clock(i + 1) >= end { Cut(w, from, i + 2, i + 1, start); }
      if w.clock(i) <= check { NotDueYet(w, from, i, at, check, end); }
      if !w.stop(i + 1) && w.clock(i) <= end { FoundNone(w, from, i, end); }
      hide *;
    }

    lemma NothingPaced(s: seq<Attempt>, first: nat, start: real)
      requires |s| == first
      ensures Paced(s, first, start)
    {
    }

    /** As fast as the socket takes packets, until the time is over or a stop. */
    method RunWithoutRateLimit(w: World) returns (ghost rounds: seq<nat>)
      requires Valid() && w.Valid()
      modifies this`counterSend, this`counter0bytes, this`errors, this`attempts, counterErrorcodes, w`tick, w`packet
      ensures Valid() && old(attempts) <= attempts
      ensures w.packet - old(w.packet) == |attempts| - |old(attempts)| == ReadyRounds(w, rounds)
      ensures rounds != [] && Rounds(w, rounds, old(w.tick) + 1, w.tick)
      ensures CutShort(w, old(w.tick), w.tick, w.clock(old(w.tick)))
      ensures AllGoOn(w, old(w.tick), rounds, w.clock(old(w.tick)) + runtime as real)
    {
      var start := w.Now();
      var end := start + runtime as real;
      var check := start + 0.1;
      ghost var n := w.Passing(end + 1.0);
      ghost var from: nat, at: nat := old(w.tick), old(w.tick) + 1;
      NotYetGoing(w, from, check, end);
      hide *;
      rounds := [];
      while true
        invariant Valid() && old(attempts) <= attempts
        invariant w.packet - old(w.packet) == |attempts| - |old(attempts)| == ReadyRounds(w, rounds)
        invariant Going(w, from, rounds, w.tick, at, check, end)
        decreases n + 2 - w.tick
      {
        ghost var i := w.tick;
        var now := Round(w);
        StillGoing(w, from, rounds, i, at, check, end);
        rounds := rounds + [i];
        w.Order(w.tick - 1, n);
        var over;
        check, over, at := Glance(w, now, check, end, from, rounds, at, start);
        if over { break; }
      }
    }

    /** Behind these rounds another one may begin at reading number `next`. */
    ghost predicate Going(w: World, from: nat, rounds: seq<nat>, next: nat, at: nat, check: real, end: real) {
      && Began(w, from, rounds, next, at, check, end) && (rounds != [] ==> GoesOn(w, from, next, end))
    }

    /** These rounds, the last of which is over with reading number `next - 1`. */
    ghost predicate Began(w: World, from: nat, rounds: seq<nat>, next: nat, at: nat, check: real, end: real) {
      && Rounds(w, rounds, from + 1, next) && AllGoOn(w, from, rounds, end)
      && Looked(w, from, at, check, end)
    }

    lemma NotYetGoing(w: World, from: nat, check: real, end: real)
      requires check == w.clock(from) + 0.1 && w.clock(from) <= end
      ensures Going(w, from, [], from + 1, from + 1, check, end) && ReadyRounds(w, []) == 0
    {
      NoRounds(w, from + 1);
      NoEnds(w, from, check, end);
    }

    lemma StillGoing(w: World, from: nat, rounds: seq<nat>, i: nat, at: nat, check: real, end: real)
      requires Going(w, from, rounds, i, at, check, end)
      ensures Began(w, from, rounds + [i], NextRound(w, i), at, check, end) && rounds + [i] != []
      ensures ReadyRounds(w, rounds + [i]) == ReadyRounds(w, rounds) + if w.ready(i) then 1 else 0
    {
      OneRound(w, rounds, from + 1, i);
      MoreGoOn(w, from, rounds, i, end);
    }

    /** Is the time over, or does a stop show when a look is due? */
    method Glance(w: World, now: real, check: real, end: real, ghost from: nat, ghost rounds: seq<nat>,
                  ghost at: nat, ghost start: real)
      returns (next: real, over: bool, ghost at': nat)
      requires w.Valid() && w.tick > from + 1 && now == w.clock(w.tick - 1) && end == start + runtime as real
      requires Began(w, from, rounds, w.tick, at, check, end)
      ensures over ==> CutShort(w, from, w.tick, start)
      ensures !over ==> now <= end && Going(w, from, rounds, w.tick, at', next, end)
    {
      MayGoOn(w, from, w.tick - 1, at, check, end);
      hide World.Valid, CutShort, GoesOn, Looked, Rounds, AllGoOn;
      next, over, at' := check, false, at;
      if now > check {
        next, at' := now + 0.1, w.tick;
        if w.stop(w.tick) {
          Cut(w, from, w.tick, w.tick, start);
          return next, true, at;
        }
      }
      if now > end {
        Cut(w, from, w.tick, w.tick - 1, start);
        over := true;
      }
    }

    /** A round may begin at this reading: by the one before, the time is not over, and no
        stop has been asked for more than a tenth of a second ago. */
    ghost predicate GoesOn(w: World, from: nat, tick: nat, end: real) {
      tick > 0 && w.clock(tick - 1) <= end && Heeds(w, from, tick - 1, end)
    }

    /** All rounds but the first follow on such a reading. */
    ghost predicate AllGoOn(w: World, from: nat, rounds: seq<nat>, end: real) {
      forall i | 0 < i < |rounds| :: GoesOn(w, from, rounds[i], end)
    }

    lemma MoreGoOn(w: World, from: nat, rounds: seq<nat>, tick: nat, end: real)
      requires AllGoOn(w, from, rounds, end) && (rounds != [] ==> GoesOn(w, from, tick, end))
      ensures AllGoOn(w, from, rounds + [tick], end)
    {
      hide GoesOn;
    }

    lemma MayGoOn(w: World, from: nat, i: nat, at: nat, check: real, end: real)
      requires w.Valid() && Looked(w, from, at, check, end) && i > from
      ensures w.clock(i) <= check && w.clock(i) <= end ==> GoesOn(w, from, i + 1, end)
      ensures !w.stop(i + 1) ==> w.clock(i) <= end ==>
                GoesOn(w, from, i + 1, end) && Looked(w, from, i + 1, w.clock(i) + 0.1, end)
    {
      if w.clock(i) <= check { NotDueYet(w, from, i, at, check, end); }
      if !w.stop(i + 1) && w.clock(i) <= end { FoundNone(w, from, i, end); }
    }

    /** The readings with which the rounds begin, one right behind the other. */
    ghost predicate Rounds(w: World, rounds: seq<nat>, first: nat, next: nat) {
      if rounds == [] then next == first
      else rounds[0] == first && next == NextRound(w, rounds[|rounds| - 1])
           && forall i | 0 < i < |rounds| :: rounds[i] == NextRound(w, rounds[i - 1])
    }

    /** A packet if the socket is ready, and a look at the clock. */
    method Round(w: World) returns (now: real)
      requires Valid() && w.Valid()
      modifies this`counterSend, this`counter0bytes, this`errors, this`attempts, counterErrorcodes, w`tick, w`packet
      ensures Valid() && old(attempts) <= attempts && w.tick == NextRound(w, old(w.tick)) > old(w.tick)
      ensures now == w.clock(w.tick - 1)
      ensures w.packet - old(w.packet) == |attempts| - |old(attempts)| == if w.ready(old(w.tick)) then 1 else 0
    {
      hide Valid, World.Valid;
      if w.ready(w.tick) { SendPacket(w, 0); }
      now := w.Now();
    }

    lemma NoRounds(w: World, first: nat)
      ensures ReadyRounds(w, []) == 0 && Rounds(w, [], first, first)
    {
    }

    /** The reading with which the round after the one at `tick` begins: a packet that is
        sent takes one, the end of the round another. */
    function NextRound(w: World, tick: nat): nat {
      tick + if w.ready(tick) then 2 else 1
    }

    /** In how many of these rounds the socket was ready. */
    ghost function ReadyRounds(w: World, rounds: seq<nat>): nat {
      if rounds == [] then 0
      else ReadyRounds(w, rounds[..|rounds| - 1]) + if w.ready(rounds[|rounds| - 1]) then 1 else 0
    }

    lemma OneRound(w: World, rounds: seq<nat>, first: nat, tick: nat)
      requires Rounds(w, rounds, first, tick)
      ensures ReadyRounds(w, rounds + [tick]) == ReadyRounds(w, rounds) + if w.ready(tick) then 1 else 0
      ensures Rounds(w, rounds + [tick], first, NextRound(w, tick))
    {
      hide NextRound;
      assert (rounds + [tick])[..|rounds|] == rounds;
    }

    /** A socket that is always ready gets a packet in every round, and there is one. */
    lemma {:induction false} AlwaysReady(w: World, rounds: seq<nat>)
      requires forall t :: w.ready(t)
      ensures ReadyRounds(w, rounds) == |rounds|
    {
      if rounds != [] { AlwaysReady(w, rounds[..|rounds| - 1]); }
    }

    /** Clears the counters and runs with or without a limit: a rate of 0 has none. */
    method Run(w: World, ghost d: real) returns (limited: bool, rest: nat, k: nat)
      requires zeitscheibe > 0.0 && counterErrorcodes.Length == 255 && w.Valid()
      modifies this`counterSend, this`counter0bytes, this`errors, this`attempts, counterErrorcodes, w`tick, w`packet
      ensures Valid() && k <= Slices() && (limited <==> queryrate > 0)
      ensures limited ==> |attempts| + rest == Work() && |attempts| == Quota(Work(), Slices(), k)
      ensures limited && k == Slices() > 0 ==> rest == 0
      ensures limited && k < Slices() ==> CutShort(w, old(w.tick), w.tick, w.clock(old(w.tick)))
      ensures limited && w.Quick(d) && Unhurried(d) && w.NoStop(old(w.tick), w.tick) ==> k == Slices()
    {
      counterSend, counter0bytes, errors := 0, 0, 0;
      forall i | 0 <= i < 255 { counterErrorcodes[i] := 0; }
      attempts := [];
      TotalZero(counterErrorcodes[..]);
      limited, rest, k := queryrate > 0, 0, 0;
      if limited {
        var start;
        ghost var n, ends;
        rest, k, start, n, ends := RunWithRateLimit(w, d);
      } else {
        ghost var rounds := RunWithoutRateLimit(w);
      }
    }

    /** All the queries of the running time. */
    function Work(): nat
      reads this`runtime, this`queryrate
    {
      runtime * queryrate
    }

    /** When slice `z` begins. */
    function Due(start: real, z: nat): real
      reads this`zeitscheibe
    {
      start + z as real * zeitscheibe
    }

    lemma DueNext(start: real, z: nat)
      ensures Due(start, 0) == start && Due(start, z + 1) == Due(start, z) + zeitscheibe
    {
    }

    /** The number of whole slices in the running time. */
    function Slices(): nat
      reads this`runtime, this`zeitscheibe
    {
      if zeitscheibe <= 0.0 then 0
      else
        var n := (runtime as real / zeitscheibe).Floor;
        if n < 0 then 0 else n
    }

    /** From attempt number `first` on, no packet goes out before its slice begins, and
        the slices take turns as the quota says. */
    ghost predicate Paced(s: seq<Attempt>, first: nat, start: real)
      reads this`runtime, this`queryrate, this`zeitscheibe
    {
      forall j | first <= j < |s| :: InTurn(s[j], j - first, start)
    }

    ghost predicate InTurn(a: Attempt, j: nat, start: real)
      reads this`runtime, this`queryrate, this`zeitscheibe
    {
      && a.time >= Due(start, a.slice) && a.slice < Slices()
      && Quota(Work(), Slices(), a.slice) <= j < Quota(Work(), Slices(), a.slice + 1)
    }

    lemma StillPaced(s: seq<Attempt>, t: seq<Attempt>, first: nat, start: real, k: nat)
      requires k < Slices() && s <= t && first <= |s| && Paced(s, first, start)
      requires |s| - first == Quota(Work(), Slices(), k) && |t| - first == Quota(Work(), Slices(), k + 1)
      requires forall j | |s| <= j < |t| :: t[j].slice == k && t[j].time >= Due(start, k)
      ensures Paced(t, first, start)
    {
      hide Quota, Slices, Due, Work;
      assert forall j | 0 <= j < |s| :: t[j] == s[j];
    }
  }

  lemma {:induction false} TotalAt(s: seq<nat>, k: nat)
    requires k < |s|
    ensures Total(s[k := s[k] + 1]) == Total(s) + 1
    decreases |s|
  {
    var t := s[k := s[k] + 1];
    if k < |s| - 1 {
      TotalAt(s[..|s| - 1], k);
      assert t[..|t| - 1] == s[..|s| - 1][k := s[k] + 1];
    } else {
      assert t[..|t| - 1] == s[..|s| - 1];
    }
  }

  lemma {:induction false} TotalZero(s: seq<nat>)
    requires forall i | 0 <= i < |s| :: s[i] == 0
    ensures Total(s) == 0
  {
    if s != [] { TotalZero(s[..|s| - 1]); }
  }

  /** Each thread of the pool gets its share of the rate. */
  method DistributeRate(queryrate: nat, pool: seq<SenderThread>)
    requires forall i, j | 0 <= i < j < |pool| :: pool[i] != pool[j]
    modifies set i | 0 <= i < |pool| :: pool[i]`queryrate
    ensures forall i | 0 <= i < |pool| :: pool[i].queryrate == Share(queryrate, |pool|, i)
  {
    var rest, threads := queryrate, |pool|;
    if threads > 0 { QuotaComplete(queryrate, |pool|); }
    for i := 0 to |pool|
      invariant threads == |pool| - i
      invariant |pool| > 0 ==> rest == queryrate - Quota(queryrate, |pool|, i)
      invariant forall k | 0 <= k < i :: pool[k].queryrate == Share(queryrate, |pool|, k)
    {
      NextQuota(queryrate, |pool|, i);
      var share := rest / threads;
      threads := threads - 1;
      rest := rest - share;
      pool[i].queryrate := share;
    }
  }

  /** All packets that these threads have tried to send. */
  ghost function PoolAttempts(pool: seq<SenderThread>): nat
    reads pool
  {
    if pool == [] then 0 else PoolAttempts(pool[..|pool| - 1]) + |pool[|pool| - 1].attempts|
  }

  /** Thread number `i` has its share of the rate, and has sent it but for `rest`. */
  ghost predicate Served(queryrate: nat, pool: seq<SenderThread>, i: nat, rest: nat)
    requires i < |pool|
    reads pool
  {
    && pool[i].queryrate == Share(queryrate, |pool|, i)
    && (pool[i].queryrate > 0 ==> |pool[i].attempts| + rest == pool[i].runtime * pool[i].queryrate)
  }

  /** What the threads with a limit have sent and what they have left is the rate for the
      whole running time, whatever the others did. */
  lemma {:induction false} PoolShares(queryrate: nat, pool: seq<SenderThread>, runtime: nat, rest: seq<nat>, n: nat)
    requires |rest| == |pool| > 0 && Shareless(queryrate, |pool|) <= n <= |pool|
    requires forall i | 0 <= i < |pool| :: pool[i].runtime == runtime && Served(queryrate, pool, i, rest[i])
    ensures
      var u := Shareless(queryrate, |pool|);
      PoolAttempts(pool[u..n]) + Total(rest[u..n]) == runtime * Quota(queryrate, |pool|, n)
    decreases n
  {
    hide Quota;
    var (u, i) := (Shareless(queryrate, |pool|), n - 1);
    SharelessExactly(queryrate, |pool|, if n > 0 then i else 0);
    if n > u {
      PoolShares(queryrate, pool, runtime, rest, i);
      assert pool[u..n][..i - u] == pool[u..i] && rest[u..n][..i - u] == rest[u..i];
      assert Served(queryrate, pool, i, rest[i]);
      QuotaGrows(queryrate, |pool|, i, n);
      Distribute(runtime, Quota(queryrate, |pool|, i), Share(queryrate, |pool|, i));
    }
  }

  /** How the run of a thread ended. */
  datatype Report = Report(limited: bool, rest: nat, slices: nat)

  /** No two threads are the same, nor their counters or their clocks and sockets. */
  ghost predicate PoolReady(pool: seq<SenderThread>, worlds: seq<World>)
    reads pool
    ensures PoolReady(pool, worlds) ==> |worlds| == |pool|
  {
    && |worlds| == |pool|
    && (forall i, j | 0 <= i < j < |pool| :: pool[i] != pool[j] && worlds[i] != worlds[j])
    && (forall i, j | 0 <= i < j < |pool| :: pool[i].counterErrorcodes != pool[j].counterErrorcodes)
    && (forall i | 0 <= i < |pool| :: Ready(pool[i]) && worlds[i].Valid())
  }

  ghost predicate Ready(t: SenderThread)
    reads t
  {
    t.zeitscheibe > 0.0 && t.counterErrorcodes.Length == 255
  }

  /** A session: the rate is split over the pool and every thread runs. Each has its own
      readings of the clock and its own socket, so the order of the runs does not matter.
      Exactly the threads with a share run limited, which is all of them if and only if
      there are at least as many queries as threads; if they all come to their end they
      have attempted the rate for the whole running time. A limited thread does not come
      to its end only if it was stopped or the time was over; and never for the latter
      reason if no two readings of its clock are further than `d` apart and its slices
      leave time for their shares. */
  method RunPool(queryrate: nat, pool: seq<SenderThread>, worlds: seq<World>, ghost runtime: nat, ghost d: real)
    returns (reports: seq<Report>)
    requires PoolReady(pool, worlds) && forall t <- pool :: t.runtime == runtime
    modifies pool, worlds, set t <- pool :: t.counterErrorcodes
    ensures |reports| == |pool|
    ensures forall i | 0 <= i < |pool| ::
              pool[i].Valid() && pool[i].runtime == runtime && pool[i].queryrate == Share(queryrate, |pool|, i)
    ensures forall i | 0 <= i < |pool| :: reports[i].limited <==> i >= Shareless(queryrate, |pool|)
    ensures forall i | 0 <= i < |pool| && reports[i].limited ::
              |pool[i].attempts| == Quota(pool[i].Work(), pool[i].Slices(), reports[i].slices)
    ensures pool != [] ==> ((forall i | 0 <= i < |pool| :: reports[i].limited) <==> queryrate >= |pool|)
    ensures pool != [] ==>
              PoolAttempts(pool[Shareless(queryrate, |pool|)..])
              + Total(Rests(reports)[Shareless(queryrate, |pool|)..]) == runtime * queryrate
    ensures pool != [] && queryrate >= |pool| && (forall i | 0 <= i < |pool| :: Complete(pool[i], reports[i])) ==>
              PoolAttempts(pool) == runtime * queryrate
    ensures |worlds| == |pool|
    ensures forall i | 0 <= i < |pool| && reports[i].limited && reports[i].slices < pool[i].Slices() ::
              pool[i].CutShort(worlds[i], old(worlds[i].tick), worlds[i].tick, worlds[i].clock(old(worlds[i].tick)))
    ensures pool != [] && queryrate >= |pool|
            && (forall i | 0 <= i < |pool| :: pool[i].Unhurried(d) && worlds[i].Quick(d))
            && (forall i | 0 <= i < |pool| :: worlds[i].NoStop(old(worlds[i].tick), worlds[i].tick)) ==>
              PoolAttempts(pool) == runtime * queryrate
  {
    hide Quota, SenderThread.Valid, SenderThread.Work, SenderThread.Slices, World.Valid;
    hide Share, Shareless, Finished, PoolAttempts, PoolReady, Total, Rests;
    hide SenderThread.CutShort, World.Quick, World.NoStop;
    reports := RunAll(queryrate, pool, worlds, runtime, d);
    if pool != [] { SessionTotals(queryrate, pool, reports, runtime); }
  }

  method RunAll(queryrate: nat, pool: seq<SenderThread>, worlds: seq<World>, ghost runtime: nat, ghost d: real)
    returns (reports: seq<Report>)
    requires PoolReady(pool, worlds) && forall t <- pool :: t.runtime == runtime
    modifies pool, worlds, set t <- pool :: t.counterErrorcodes
    ensures |reports| == |pool|
    ensures forall i | 0 <= i < |pool| ::
              pool[i].runtime == runtime && pool[i].queryrate == Share(queryrate, |pool|, i)
    ensures forall i | 0 <= i < |pool| :: Finished(pool[i], reports[i])
    ensures |worlds| == |pool| && forall i | 0 <= i < |pool| ::
              Ended(pool[i], worlds[i], old(worlds[i].tick), worlds[i].tick, reports[i], d)
  {
    hide Quota, SenderThread.Valid, World.Valid, Share, Finished, PoolReady, Ended;
    ghost var from := Ticks(worlds);
    ShareOut(queryrate, pool, worlds, runtime);
    reports := [];
    for i := 0 to |pool|
      invariant |reports| == i && PoolReady(pool, worlds)
      invariant forall t <- pool :: t.runtime == runtime
      invariant forall j | 0 <= j < |pool| :: pool[j].queryrate == Share(queryrate, |pool|, j)
      invariant forall j | 0 <= j < i :: Finished(pool[j], reports[j])
      invariant forall j | 0 <= j < i :: Ended(pool[j], worlds[j], from[j], worlds[j].tick, reports[j], d)
      invariant forall j | i <= j < |worlds| :: worlds[j].tick == from[j]
    {
      var r := RunMember(pool[i], worlds[i], pool, worlds, reports, from, d);
      reports := reports + [r];
    }
  }

  ghost function Ticks(worlds: seq<World>): (r: seq<nat>)
    reads worlds
    ensures |r| == |worlds| && forall i | 0 <= i < |r| :: r[i] == worlds[i].tick
  {
    if worlds == [] then [] else Ticks(worlds[..|worlds| - 1]) + [worlds[|worlds| - 1].tick]
  }

  method ShareOut(queryrate: nat, pool: seq<SenderThread>, ghost worlds: seq<World>, ghost runtime: nat)
    requires PoolReady(pool, worlds) && forall t <- pool :: t.runtime == runtime
    modifies pool
    ensures PoolReady(pool, worlds) && forall t <- pool :: t.runtime == runtime
    ensures forall j | 0 <= j < |pool| :: pool[j].queryrate == Share(queryrate, |pool|, j)
  {
    hide World.Valid, Share;
    DistributeRate(queryrate, pool);
  }

  /** One thread of the pool runs; the others do not notice. */
  method RunMember(t: SenderThread, w: World, ghost pool: seq<SenderThread>, ghost worlds: seq<World>, ghost reports: seq<Report>,
                   ghost from: seq<nat>, ghost d: real)
    returns (r: Report)
    requires PoolReady(pool, worlds) && |reports| < |pool|
    requires pool[|reports|] == t && worlds[|reports|] == w
    requires forall j | 0 <= j < |reports| :: Finished(pool[j], reports[j])
    requires |from| == |worlds| && w.tick == from[|reports|]
    requires forall j | 0 <= j < |reports| :: Ended(pool[j], worlds[j], from[j], worlds[j].tick, reports[j], d)
    modifies t`counterSend, t`counter0bytes, t`errors, t`attempts, t.counterErrorcodes, w`tick, w`packet
    ensures PoolReady(pool, worlds) && Finished(t, r)
    ensures forall j | 0 <= j < |reports| :: Finished(pool[j], reports[j])
    ensures Ended(t, w, from[|reports|], w.tick, r, d)
    ensures forall j | 0 <= j < |reports| :: Ended(pool[j], worlds[j], from[j], worlds[j].tick, reports[j], d)
    ensures forall j | |reports| < j < |worlds| :: worlds[j].tick == old(worlds[j].tick)
  {
    hide Quota, SenderThread.Valid, World.Valid;
    var limited, rest, k := t.Run(w, d);
    r := Report(limited, rest, k);
    forall j | 0 <= j < |reports|
      ensures Finished(pool[j], reports[j])
      ensures Ended(pool[j], worlds[j], from[j], worlds[j].tick, reports[j], d)
    {
      assert pool[j] != t && pool[j].counterErrorcodes != t.counterErrorcodes && worlds[j] != w;
      assert old(Finished(pool[j], reports[j]));
      assert old(Ended(pool[j], worlds[j], from[j], worlds[j].tick, reports[j], d));
    }
  }

  lemma SessionTotals(queryrate: nat, pool: seq<SenderThread>, reports: seq<Report>, runtime: nat)
    requires |reports| == |pool| > 0
    requires forall i | 0 <= i < |pool| :: pool[i].runtime == runtime && pool[i].queryrate == Share(queryrate, |pool|, i)
    requires forall i | 0 <= i < |pool| :: Finished(pool[i], reports[i])
    ensures forall i | 0 <= i < |pool| :: pool[i].Valid()
    ensures forall i | 0 <= i < |pool| :: reports[i].limited <==> i >= Shareless(queryrate, |pool|)
    ensures forall i | 0 <= i < |pool| && reports[i].limited ::
              |pool[i].attempts| == Quota(pool[i].Work(), pool[i].Slices(), reports[i].slices)
    ensures (forall i | 0 <= i < |pool| :: reports[i].limited) <==> queryrate >= |pool|
    ensures
      var u := Shareless(queryrate, |pool|);
      PoolAttempts(pool[u..]) + Total(Rests(reports)[u..]) == runtime * queryrate
    ensures queryrate >= |pool| && (forall i | 0 <= i < |pool| :: Complete(pool[i], reports[i])) ==>
              PoolAttempts(pool) == runtime * queryrate
  {
    hide Share, Quota, SenderThread.Valid;
    var (n, u, rests) := (|pool|, Shareless(queryrate, |pool|), Rests(reports));
    forall i | 0 <= i < n
      ensures reports[i].limited <==> i >= u
      ensures Served(queryrate, pool, i, rests[i])
    {
      SharelessExactly(queryrate, n, i);
    }
    assert u > 0 ==> !reports[0].limited;
    PoolShares(queryrate, pool, runtime, rests, n);
    QuotaComplete(queryrate, n);
    assert pool[u..n] == pool[u..] && rests[u..n] == rests[u..];
    if u == 0 && forall i | 0 <= i < n :: Complete(pool[i], reports[i]) {
      assert pool[u..] == pool && rests[u..] == rests;
      TotalZero(rests);
    }
  }

  /** Why a thread's run came to its end, between these readings of its clock. */
  ghost predicate Ended(t: SenderThread, w: World, from: nat, to: nat, r: Report, d: real)
    reads t
  {
    && (r.limited && r.slices < t.Slices() ==> t.CutShort(w, from, to, w.clock(from)))
    && (r.limited && w.Quick(d) && t.Unhurried(d) && w.NoStop(from, to) ==> r.slices == t.Slices())
  }

  /** What the report of a thread says about it. */
  ghost predicate Finished(t: SenderThread, r: Report)
    reads t, t.counterErrorcodes
  {
    && t.Valid() && (r.limited <==> t.queryrate > 0)
    && (r.limited ==> |t.attempts| + r.rest == t.Work() && |t.attempts| == Quota(t.Work(), t.Slices(), r.slices))
    && (r.limited && Complete(t, r) ==> r.rest == 0)
  }

  function Rests(reports: seq<Report>): (r: seq<nat>)
    ensures |r| == |reports|
  {
    seq(|reports|, i requires 0 <= i < |reports| => reports[i].rest)
  }

  /** All slices of the running time were worked through, and there was one. */
  ghost predicate Complete(t: SenderThread, r: Report)
    reads t
  {
    r.slices == t.Slices() > 0
  }
}
