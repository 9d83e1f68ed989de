/** What a pool allocator hands out, as a value: per block its place, its size
    and the numbers of the elements in use. */
module HeapModel {

  datatype Block = Block(base: int, size: nat, elements: nat, used: set<int>)

  function Address(b: Block, k: int): int { b.base + k * b.size }

  function End(b: Block): int { b.base + b.elements * b.size }

  ghost predicate BlockOk(b: Block, size: nat) {
    b.size == size && size > 0 && b.elements > 0 && forall k <- b.used :: 0 <= k < b.elements
  }

  /** Two buffers lie apart with at least one byte between them. */
  predicate GapBetween(a: Block, b: Block) {
    End(a) < b.base || End(b) < a.base
  }

  ghost predicate Placed(bs: seq<Block>, size: nat) {
    && (forall i | 0 <= i < |bs| :: BlockOk(bs[i], size))
    && (forall i, j | 0 <= i < j < |bs| :: GapBetween(bs[i], bs[j]))
  }

  function BlockLive(b: Block): set<int> {
    set k <- b.used :: Address(b, k)
  }

  /** All addresses in use. */
  function Live(bs: seq<Block>): set<int> {
    if bs == [] then {} else BlockLive(bs[0]) + Live(bs[1..])
  }

  function UsedCount(bs: seq<Block>): nat {
    if bs == [] then 0 else |bs[0].used| + UsedCount(bs[1..])
  }

  function ElementCount(bs: seq<Block>): nat {
    if bs == [] then 0 else bs[0].elements + ElementCount(bs[1..])
  }

  lemma {:induction false} LiveMember(bs: seq<Block>, a: int)
    ensures a in Live(bs) <==> exists i | 0 <= i < |bs| :: a in BlockLive(bs[i])
  {
    if bs != [] {
      LiveMember(bs[1..], a);
      if i :| 0 <= i < |bs| && a in BlockLive(bs[i]) {
        assert i > 0 ==> bs[i] == bs[1..][i - 1];
      }
    }
  }

  lemma MulOrder(j: int, k: int, size: nat)
    requires j < k
    ensures j * size + size <= k * size
  {
    var d: nat := k - j - 1;
    assert d * size >= 0;
    assert k * size == j * size + size + d * size;
  }

  lemma AddressInBlock(b: Block, size: nat, k: int)
    requires BlockOk(b, size) && 0 <= k < b.elements
    ensures b.base <= Address(b, k) && Address(b, k) + size <= End(b)
  {
    MulOrder(k, b.elements, size);
    if k > 0 { MulOrder(0, k, size); }
  }

  lemma AddressApart(b: Block, size: nat, j: int, k: int)
    requires BlockOk(b, size) && j < k
    ensures Address(b, j) + size <= Address(b, k)
  {
    MulOrder(j, k, size);
  }

  lemma BlocksApart(bs: seq<Block>, size: nat, i: nat, j: nat)
    requires Placed(bs, size) && i < |bs| && j < |bs| && i != j
    ensures GapBetween(bs[i], bs[j])
  {
  }

  lemma LiveInBlock(b: Block, size: nat, a: int)
    requires BlockOk(b, size) && a in BlockLive(b)
    ensures b.base <= a && a + size <= End(b)
  {
    var k :| k in b.used && a == Address(b, k);
    AddressInBlock(b, size, k);
  }

  /** Elements in use never overlap: their addresses are a whole element apart. */
  lemma LiveApart(bs: seq<Block>, size: nat, a: int, c: int)
    requires Placed(bs, size) && a in Live(bs) && c in Live(bs) && a < c
    ensures a + size <= c
  {
    LiveMember(bs, a);
    LiveMember(bs, c);
    var i :| 0 <= i < |bs| && a in BlockLive(bs[i]);
    var j :| 0 <= j < |bs| && c in BlockLive(bs[j]);
    LiveInBlock(bs[i], size, a);
    LiveInBlock(bs[j], size, c);
    if i == j {
      var k :| k in bs[i].used && a == Address(bs[i], k);
      var l :| l in bs[i].used && c == Address(bs[i], l);
      if k < l { AddressApart(bs[i], size, k, l); }
      if l < k { AddressApart(bs[i], size, l, k); }
    } else {
      BlocksApart(bs, size, i, j);
    }
  }

  lemma BlockLiveAdd(b: Block, k: int)
    ensures BlockLive(b.(used := b.used + {k})) == BlockLive(b) + {Address(b, k)}
  {
  }

  lemma PlacedReplace(bs: seq<Block>, size: nat, i: nat, used: set<int>)
    requires Placed(bs, size) && i < |bs| && forall k <- used :: 0 <= k < bs[i].elements
    ensures Placed(bs[i := bs[i].(used := used)], size)
  {
    var bs' := bs[i := bs[i].(used := used)];
    forall j, k | 0 <= j < k < |bs'| ensures GapBetween(bs'[j], bs'[k]) {
      assert GapBetween(bs[j], bs[k]);
    }
  }

  /** Handing out a free element: its address is new, and the counts grow by one. */
  lemma UseElement(bs: seq<Block>, size: nat, i: nat, k: int)
    requires Placed(bs, size) && i < |bs| && 0 <= k < bs[i].elements && k !in bs[i].used
    ensures
      var bs' := bs[i := bs[i].(used := bs[i].used + {k})];
      && Placed(bs', size)
      && Address(bs[i], k) !in Live(bs) && Live(bs') == Live(bs) + {Address(bs[i], k)}
      && UsedCount(bs') == UsedCount(bs) + 1 && ElementCount(bs') == ElementCount(bs)
  {
    hide Live, UsedCount, ElementCount;
    var b := bs[i].(used := bs[i].used + {k});
    assert BlockOk(bs[i], size);
    PlacedReplace(bs, size, i, b.used);
    AddressUnique(bs, size, i, k);
    BlockLiveAdd(bs[i], k);
    LiveReplace(bs, i, b);
    CountReplace(bs, i, b);
    assert BlockLive(bs[i]) <= Live(bs) by { LiveOfBlock(bs, i); }
  }

  /** Taking an element back: exactly its address goes. */
  lemma ReleaseElement(bs: seq<Block>, size: nat, i: nat, k: int)
    requires Placed(bs, size) && i < |bs| && k in bs[i].used
    ensures
      var bs' := bs[i := bs[i].(used := bs[i].used - {k})];
      && Placed(bs', size)
      && Address(bs[i], k) in Live(bs) && Live(bs') == Live(bs) - {Address(bs[i], k)}
      && UsedCount(bs') == UsedCount(bs) - 1 && ElementCount(bs') == ElementCount(bs)
  {
    var b := bs[i].(used := bs[i].used - {k});
    var bs' := bs[i := b];
    assert BlockOk(bs[i], size);
    assert bs == bs'[i := b.(used := b.used + {k})] by { assert b.used + {k} == bs[i].used; }
    PlacedReplace(bs, size, i, b.used);
    assert bs'[i] == b && Address(b, k) == Address(bs[i], k);
    UseElement(bs', size, i, k);
  }

  lemma LiveOfBlock(bs: seq<Block>, i: nat)
    requires i < |bs|
    ensures BlockLive(bs[i]) <= Live(bs)
  {
    forall a <- BlockLive(bs[i]) ensures a in Live(bs) { LiveMember(bs, a); }
  }

  lemma AddressUnique(bs: seq<Block>, size: nat, i: nat, k: int)
    requires Placed(bs, size) && i < |bs| && 0 <= k < bs[i].elements
    ensures Address(bs[i], k) in Live(bs) ==> k in bs[i].used
  {
    var a := Address(bs[i], k);
    if a in Live(bs) {
      LiveMember(bs, a);
      var j :| 0 <= j < |bs| && a in BlockLive(bs[j]);
      LiveInBlock(bs[j], size, a);
      AddressInBlock(bs[i], size, k);
      if i != j {
        BlocksApart(bs, size, i, j);
      } else {
        var l :| l in bs[i].used && a == Address(bs[i], l);
        if k < l { AddressApart(bs[i], size, k, l); }
        if l < k { AddressApart(bs[i], size, l, k); }
      }
    }
  }

  /** What replacing one block does to the sums. */
  lemma {:induction false} CountReplace(bs: seq<Block>, i: nat, b: Block)
    requires i < |bs|
    ensures UsedCount(bs[i := b]) == UsedCount(bs) - |bs[i].used| + |b.used|
    ensures ElementCount(bs[i := b]) == ElementCount(bs) - bs[i].elements + b.elements
  {
    if i == 0 {
      assert bs[0 := b][1..] == bs[1..];
    } else {
      CountReplace(bs[1..], i - 1, b);
      assert bs[i := b][1..] == bs[1..][i - 1 := b];
    }
  }

  lemma LiveReplace(bs: seq<Block>, i: nat, b: Block)
    requires i < |bs| && BlockLive(bs[i]) <= BlockLive(b)
    ensures Live(bs[i := b]) == Live(bs) + BlockLive(b)
  {
    forall a ensures a in Live(bs[i := b]) <==> a in Live(bs) + BlockLive(b) {
      LiveMember(bs, a);
      LiveMember(bs[i := b], a);
      if a in BlockLive(b) { assert bs[i := b][i] == b; }
      if a in Live(bs) {
        var j :| 0 <= j < |bs| && a in BlockLive(bs[j]);
        assert a in BlockLive(bs[i := b][j]);
      }
    }
  }

  /** A new block adds elements but nothing in use. */
  lemma NewBlock(bs: seq<Block>, b: Block, size: nat)
    requires Placed(bs, size) && BlockOk(b, size) && b.used == {}
    requires forall i | 0 <= i < |bs| :: GapBetween(b, bs[i])
    ensures Placed([b] + bs, size) && Live([b] + bs) == Live(bs)
    ensures UsedCount([b] + bs) == UsedCount(bs) && ElementCount([b] + bs) == b.elements + ElementCount(bs)
  {
    var bs' := [b] + bs;
    assert bs'[1..] == bs && BlockLive(b) == {};
    forall i, j | 0 <= i < j < |bs'| ensures GapBetween(bs'[i], bs'[j]) {
      assert bs'[j] == bs[j - 1] && (i > 0 ==> bs'[i] == bs[i - 1]);
    }
  }

  lemma {:induction false} SomeFree(bs: seq<Block>, i: nat, size: nat)
    requires Placed(bs, size) && i < |bs| && |bs[i].used| < bs[i].elements
    ensures UsedCount(bs) < ElementCount(bs)
  {
    var full := bs[i].(elements := |bs[i].used|);
    CountReplace(bs, i, full);
    var bs' := bs[i := full];
    forall j | 0 <= j < |bs'| ensures |bs'[j].used| <= bs'[j].elements { UsedFits(bs[j], size); }
    UsedAtMost(bs');
  }

  lemma UsedFits(b: Block, size: nat)
    requires BlockOk(b, size)
    ensures |b.used| <= b.elements
  {
    RangeMembers(b.elements);
    forall k | k in b.used ensures k in Range(b.elements) {}
    SubsetSize(b.used, Range(b.elements));
  }

  ghost function Range(n: nat): set<int> {
    if n == 0 then {} else Range(n - 1) + {n - 1}
  }

  lemma {:induction false} RangeMembers(n: nat)
    ensures |Range(n)| == n && forall k :: k in Range(n) <==> 0 <= k < n
  {
    if n > 0 { RangeMembers(n - 1); }
  }

  lemma SubsetSize<T>(a: set<T>, b: set<T>)
    requires a <= b
    ensures |a| <= |b|
  {
    assert b == a + (b - a);
  }

  lemma {:induction false} UsedAtMost(bs: seq<Block>)
    requires forall j | 0 <= j < |bs| :: |bs[j].used| <= bs[j].elements
    ensures UsedCount(bs) <= ElementCount(bs)
  {
    if bs != [] { UsedAtMost(bs[1..]); }
  }

  lemma {:induction false} AllUsed(bs: seq<Block>)
    requires forall j | 0 <= j < |bs| :: |bs[j].used| == bs[j].elements
    ensures UsedCount(bs) == ElementCount(bs)
  {
    if bs != [] { AllUsed(bs[1..]); }
  }

  // ------------------------------------------------------- freeing an address

  ghost predicate Foreign(bs: seq<Block>, mem: int) {
    forall i | 0 <= i < |bs| :: !(bs[i].base <= mem <= End(bs[i]))
  }

  /** Inside block `b`, but not where an element starts. */
  ghost predicate MisplacedIn(b: Block, mem: int) {
    b.base <= mem < End(b) && forall k :: Address(b, k) != mem
  }

  /** A pointer that may be passed to free: in use, or outside every block, or
      inside one without being the start of an element. */
  ghost predicate Freeable(bs: seq<Block>, mem: int) {
    mem in Live(bs) || Foreign(bs, mem) || exists i | 0 <= i < |bs| :: MisplacedIn(bs[i], mem)
  }

  /** In use at a distance from the block's start that fits into 32 bits. */
  ghost predicate LiveWithin32(bs: seq<Block>, mem: int) {
    exists i | 0 <= i < |bs| :: mem in BlockLive(bs[i]) && mem - bs[i].base < 0x1_0000_0000
  }

  /** The element number that free computes, with the distance cut to 32 bits. */
  function ElementNumber(b: Block, mem: int): int
    requires b.size > 0
  {
    ((mem - b.base) % 0x1_0000_0000) / b.size
  }

  lemma DivBounds(d: nat, size: nat)
    requires size > 0
    ensures 0 <= d / size && (d / size) * size <= d && (d % size == 0 <==> (d / size) * size == d)
  {
  }

  lemma ElementNumberIs(b: Block, size: nat, mem: int)
    requires BlockOk(b, size) && b.base <= mem < End(b)
    ensures 0 <= ElementNumber(b, mem) < b.elements
    ensures Address(b, ElementNumber(b, mem)) <= mem
    ensures mem - b.base >= 0x1_0000_0000 ==> Address(b, ElementNumber(b, mem)) != mem
  {
    var d := (mem - b.base) % 0x1_0000_0000;
    DivBounds(d, size);
    var e := d / size;
    if e >= b.elements {
      if e > b.elements { MulOrder(b.elements, e, size); }
    }
  }

  lemma ElementNumberOf(b: Block, size: nat, k: int)
    requires BlockOk(b, size) && 0 <= k < b.elements && k * size < 0x1_0000_0000
    ensures ElementNumber(b, Address(b, k)) == k
  {
    if k > 0 { MulOrder(0, k, size); }
    DivBounds(k * size, size);
    var e := k * size / size;
    if e < k { MulOrder(e, k, size); }
    if k < e { MulOrder(k, e, size); }
  }

  lemma ForeignIsNotLive(bs: seq<Block>, size: nat, mem: int)
    requires Placed(bs, size) && Foreign(bs, mem)
    ensures mem !in Live(bs)
  {
    LiveMember(bs, mem);
    if mem in Live(bs) {
      var i :| 0 <= i < |bs| && mem in BlockLive(bs[i]);
      LiveInBlock(bs[i], size, mem);
    }
  }

  /** What free finds at the block that holds the address. */
  lemma FreeFinds(bs: seq<Block>, size: nat, i: nat, mem: int)
    requires Placed(bs, size) && Freeable(bs, mem)
    requires i < |bs| && bs[i].base <= mem <= End(bs[i])
    ensures mem < End(bs[i]) && BlockOk(bs[i], size) && !Foreign(bs, mem)
    ensures var e := ElementNumber(bs[i], mem);
            && 0 <= e < bs[i].elements
            && (Address(bs[i], e) == mem <==> LiveWithin32(bs, mem))
            && (Address(bs[i], e) == mem ==> e in bs[i].used && mem in Live(bs))
  {
    var b := bs[i];
    assert BlockOk(b, size);
    if mem in Live(bs) {
      OnlyBlock(bs, size, i, mem);
      LiveInBlock(b, size, mem);
      ElementNumberIs(b, size, mem);
      var k :| k in b.used && mem == Address(b, k);
      if mem - b.base < 0x1_0000_0000 { ElementNumberOf(b, size, k); }
    } else {
      var j :| 0 <= j < |bs| && MisplacedIn(bs[j], mem);
      if i != j { BlocksApart(bs, size, i, j); }
      ElementNumberIs(b, size, mem);
      LiveWithinIsLive(bs, mem);
    }
  }

  lemma LiveWithinIsLive(bs: seq<Block>, mem: int)
    ensures LiveWithin32(bs, mem) ==> mem in Live(bs)
  {
    LiveMember(bs, mem);
  }

  /** Every block is at most 4 GB long. */
  ghost predicate Short(bs: seq<Block>) {
    forall i | 0 <= i < |bs| :: End(bs[i]) - bs[i].base <= 0x1_0000_0000
  }

  lemma ShortReach(bs: seq<Block>, size: nat, mem: int)
    requires Placed(bs, size) && Short(bs) && mem in Live(bs)
    ensures LiveWithin32(bs, mem)
  {
    LiveMember(bs, mem);
    var i :| 0 <= i < |bs| && mem in BlockLive(bs[i]);
    LiveInBlock(bs[i], size, mem);
  }

  /** As long as the whole pool is not longer than 4 GB, no block is. */
  lemma SmallPool(bs: seq<Block>, size: nat)
    requires Placed(bs, size) && ElementCount(bs) * size <= 0x1_0000_0000
    ensures Short(bs)
  {
    forall i | 0 <= i < |bs| ensures End(bs[i]) - bs[i].base <= 0x1_0000_0000 {
      ElementsWithin(bs, i);
      assert BlockOk(bs[i], size);
      if bs[i].elements < ElementCount(bs) { MulOrder(bs[i].elements, ElementCount(bs), size); }
    }
  }

  lemma {:induction false} ElementsWithin(bs: seq<Block>, i: nat)
    requires i < |bs|
    ensures bs[i].elements <= ElementCount(bs)
  {
    if i > 0 { ElementsWithin(bs[1..], i - 1); }
  }

  /** An element in use 4 GB behind the start of its block is taken for element 0, and
      so refused. */
  lemma FarElement(base: int)
    ensures
      var (size, far) := (0x10_0000, base + 0x1_0000_0000);
      var bs := [Block(base, size, 4097, {4096})];
      && Placed(bs, size) && far in Live(bs) && Freeable(bs, far) && !LiveWithin32(bs, far)
      && ElementNumber(bs[0], far) == 0 && Address(bs[0], 0) != far
  {
    var b := Block(base, 0x10_0000, 4097, {4096});
    assert Address(b, 4096) in BlockLive(b);
    LiveMember([b], Address(b, 4096));
  }

  /** An address in use that lies in the range of a block belongs to that block. */
  lemma OnlyBlock(bs: seq<Block>, size: nat, i: nat, mem: int)
    requires Placed(bs, size) && i < |bs| && bs[i].base <= mem <= End(bs[i]) && mem in Live(bs)
    ensures mem in BlockLive(bs[i])
    ensures LiveWithin32(bs, mem) <==> mem - bs[i].base < 0x1_0000_0000
  {
    LiveMember(bs, mem);
    forall j | 0 <= j < |bs| && mem in BlockLive(bs[j]) ensures i == j {
      LiveInBlock(bs[j], size, mem);
      if i != j { BlocksApart(bs, size, i, j); }
    }
  }

  // ------------------------------------------------------------------ growth

  /** The step after a step of `i` elements is larger by so many percent, rounded down. */
  predicate NextIncrease(i: nat, percent: nat, j: nat) {
    100 * j <= (100 + percent) * i < 100 * j + 100
  }

  /** The elements after `n` growths that begin with a step of `i`. */
  function Capacity(i: nat, percent: nat, n: nat): nat
    decreases n
  {
    if n == 0 then 0 else i + Capacity(i + i * percent / 100, percent, n - 1)
  }

  lemma StepIs(i: nat, percent: nat, j: nat)
    ensures NextIncrease(i, percent, j) <==> j == i + i * percent / 100
  {
    var p := i * percent;
    assert (100 + percent) * i == 100 * i + p;
  }

  /** With the numbers of the map template: 100, then 130, then 169 elements more. */
  lemma FirstGrowths()
    ensures Capacity(100, 30, 1) == 100 && Capacity(100, 30, 2) == 230 && Capacity(100, 30, 3) == 399
  {
    assert Capacity(169, 30, 1) == 169 + Capacity(219, 30, 0);
    assert Capacity(130, 30, 2) == 130 + Capacity(169, 30, 1);
    assert Capacity(130, 30, 1) == 130 + Capacity(169, 30, 0);
  }

  lemma NoCapacity(i: nat, percent: nat)
    ensures Capacity(i, percent, 0) == 0
  {
  }

  /** One growth more adds the last of the steps. */
  lemma {:induction false} CapacityMore(i: nat, percent: nat, steps: seq<nat>)
    requires steps != [] && steps[0] == i
    requires forall k | 0 <= k < |steps| - 1 :: NextIncrease(steps[k], percent, steps[k + 1])
    ensures Capacity(i, percent, |steps|) == Capacity(i, percent, |steps| - 1) + steps[|steps| - 1]
    decreases |steps|
  {
    if |steps| > 1 {
      assert NextIncrease(steps[0], percent, steps[1]);
      StepIs(i, percent, steps[1]);
      CapacityMore(steps[1], percent, steps[1..]);
    } else {
      assert Capacity(i + i * percent / 100, percent, 0) == 0;
    }
  }

  // -------------------------------------------------- releasing whole blocks

  function Without<T>(s: seq<T>, i: nat): (r: seq<T>)
    requires i < |s|
    ensures |r| == |s| - 1 && forall j | 0 <= j < |r| :: r[j] == s[if j < i then j else j + 1]
  {
    s[..i] + s[i + 1..]
  }

  /** Releasing a wholly free block changes nothing that is in use. */
  lemma DropSpare(bs: seq<Block>, size: nat, i: nat)
    requires Placed(bs, size) && i < |bs| && bs[i].used == {}
    ensures Placed(Without(bs, i), size)
    ensures Live(Without(bs, i)) == Live(bs) && UsedCount(Without(bs, i)) == UsedCount(bs)
    ensures ElementCount(Without(bs, i)) == ElementCount(bs) - bs[i].elements
  {
    DropSums(bs, i);
    forall j, k | 0 <= j < k < |Without(bs, i)| ensures GapBetween(Without(bs, i)[j], Without(bs, i)[k]) {
      BlocksApart(bs, size, if j < i then j else j + 1, if k < i then k else k + 1);
    }
  }

  lemma {:induction false} DropSums(bs: seq<Block>, i: nat)
    requires i < |bs| && bs[i].used == {}
    ensures Live(Without(bs, i)) == Live(bs) && UsedCount(Without(bs, i)) == UsedCount(bs)
    ensures ElementCount(Without(bs, i)) == ElementCount(bs) - bs[i].elements
  {
    if i == 0 {
      assert Without(bs, 0) == bs[1..] && BlockLive(bs[0]) == {};
    } else {
      DropSums(bs[1..], i - 1);
      assert Without(bs, i)[1..] == Without(bs[1..], i - 1);
    }
  }

  /** The blocks a cleanup keeps: those in use, and the first one that is not. */
  function Kept(bs: seq<Block>, flag: bool): seq<Block> {
    if bs == [] then []
    else if bs[0].used == {} then
      if flag then Kept(bs[1..], true) else [bs[0]] + Kept(bs[1..], true)
    else [bs[0]] + Kept(bs[1..], flag)
  }

  /** A cleanup gives nothing back that is in use. */
  lemma {:induction false} KeptLive(bs: seq<Block>, flag: bool)
    ensures Live(Kept(bs, flag)) == Live(bs) && UsedCount(Kept(bs, flag)) == UsedCount(bs)
  {
    if bs != [] {
      var rest := Kept(bs[1..], flag || bs[0].used == {});
      KeptLive(bs[1..], flag || bs[0].used == {});
      assert ([bs[0]] + rest)[1..] == rest;
    }
  }

  /** A cleanup gives back only free elements, and not the last of them. */
  lemma {:induction false} KeptFree(bs: seq<Block>, size: nat, flag: bool)
    requires forall i | 0 <= i < |bs| :: BlockOk(bs[i], size)
    ensures UsedCount(bs) <= ElementCount(Kept(bs, flag)) <= ElementCount(bs)
    ensures !flag && UsedCount(bs) < ElementCount(bs) ==> UsedCount(bs) < ElementCount(Kept(bs, flag))
  {
    if bs != [] {
      var rest := Kept(bs[1..], flag || bs[0].used == {});
      KeptFree(bs[1..], size, flag || bs[0].used == {});
      assert BlockOk(bs[0], size);
      UsedFits(bs[0], size);
      assert ([bs[0]] + rest)[1..] == rest;
    }
  }

  lemma KeptSkips(bs: seq<Block>, i: nat)
    requires i < |bs| && bs[i].used == {}
    ensures Kept(bs[i..], true) == Kept(Without(bs, i)[i..], true)
    ensures Without(bs, i)[..i] == bs[..i]
  {
    assert bs[i..][1..] == Without(bs, i)[i..];
  }

  lemma KeptTakes(bs: seq<Block>, i: nat, flag: bool)
    requires i < |bs| && (bs[i].used != {} || !flag)
    ensures bs[..i] + Kept(bs[i..], flag) == bs[..i + 1] + Kept(bs[i + 1..], flag || bs[i].used == {})
  {
    assert bs[i..][1..] == bs[i + 1..];
    assert bs[..i + 1] == bs[..i] + [bs[i]];
  }

  /** The number of wholly free blocks. */
  function Spare(bs: seq<Block>): nat {
    if bs == [] then 0 else (if bs[0].used == {} then 1 else 0) + Spare(bs[1..])
  }

  /** It leaves one spare block, if there was any. */
  lemma {:induction false} KeptSpare(bs: seq<Block>, flag: bool)
    ensures Spare(Kept(bs, flag)) == if flag || Spare(bs) == 0 then 0 else 1
  {
    if bs != [] {
      var rest := Kept(bs[1..], flag || bs[0].used == {});
      KeptSpare(bs[1..], flag || bs[0].used == {});
      assert ([bs[0]] + rest)[1..] == rest;
    }
  }

  /** Which blocks it keeps, in their old order: every one in use. */
  lemma {:induction false} KeptMembers(bs: seq<Block>, flag: bool)
    ensures forall b <- Kept(bs, flag) :: b in bs
    ensures forall b <- bs :: b.used != {} ==> b in Kept(bs, flag)
  {
    if bs != [] {
      KeptMembers(bs[1..], flag || bs[0].used == {});
      assert forall b :: b in bs <==> b == bs[0] || b in bs[1..];
    }
  }

  /** Distinct elements have distinct addresses: as many live addresses as elements. */
  lemma {:induction false} LiveCount(bs: seq<Block>, size: nat)
    requires Placed(bs, size)
    ensures |Live(bs)| == UsedCount(bs)
  {
    if bs != [] {
      assert forall i | 0 <= i < |bs[1..]| :: bs[1..][i] == bs[i + 1];
      LiveCount(bs[1..], size);
      BlockLiveCount(bs[0], size, bs[0].used);
      forall a | a in BlockLive(bs[0]) ensures a !in Live(bs[1..]) {
        LiveInBlock(bs[0], size, a);
        LiveElsewhere(bs, size, a);
      }
    }
  }

  lemma LiveElsewhere(bs: seq<Block>, size: nat, a: int)
    requires bs != [] && Placed(bs, size) && bs[0].base <= a <= End(bs[0])
    ensures a !in Live(bs[1..])
  {
    LiveMember(bs[1..], a);
    if a in Live(bs[1..]) {
      var i :| 0 <= i < |bs[1..]| && a in BlockLive(bs[1..][i]);
      BlocksApart(bs, size, 0, i + 1);
      assert bs[1..][i] == bs[i + 1];
      LiveInBlock(bs[i + 1], size, a);
    }
  }

  lemma Any<T>(s: set<T>) returns (k: T)
    requires s != {}
    ensures k in s
  {
    k :| k in s;
  }

  lemma {:induction false} BlockLiveCount(b: Block, size: nat, used: set<int>)
    requires BlockOk(b, size) && used <= b.used
    ensures |BlockLive(b.(used := used))| == |used|
    decreases used
  {
    if used == {} {
      assert BlockLive(b.(used := {})) == {};
    } else {
      assert |used| > 0;
      var k := Any(used);
      var rest := used - {k};
      BlockLiveCount(b, size, rest);
      BlockLiveAdd(b.(used := rest), k);
      assert rest + {k} == used;
      if l :| l in rest && Address(b, l) == Address(b, k) {
        if k < l { AddressApart(b, size, k, l); } else { AddressApart(b, size, l, k); }
      }
    }
  }
}

module HeapBlocks {
  import opened HeapModel

  function Nth(c: seq<int>, i: int): int {
    if 0 <= i < |c| then c[i] else -1
  }

  /** One block with its table of elements. Pointers into the table are indices,
      -1 standing for NULL; the free elements form a doubly linked chain. */
  class HeapBlock {
    var previous: HeapBlock?
    var next: HeapBlock?
    const buffer: int
    const size: nat
    const elements: nat
    var num_free: nat
    var free: int
    const elNext: array<int>
    const elPrevious: array<int>
    const elPtr: array<int>
    ghost var chain: seq<int>
    ghost var used: set<int>

    ghost predicate Valid()
      reads `num_free, `free, `chain, `used, elNext, elPrevious, elPtr
    {
      && size > 0 && elements > 0
      && elNext.Length == elements && elPrevious.Length == elements && elPtr.Length == elements
      && elNext != elPrevious && elPrevious != elPtr && elNext != elPtr
      && (forall k | 0 <= k < elements :: elPtr[k] == Address(View(), k))
      && num_free == |chain| && Chained(chain)
      && |used| + num_free == elements
      && (forall k :: k in used <==> 0 <= k < elements && k !in chain)
    }

    ghost function View(): Block
      reads `used
    {
      Block(buffer, size, elements, used)
    }

    /** The free elements in the order of the links, all different. */
    ghost predicate Chained(c: seq<int>)
      requires elNext.Length == elements && elPrevious.Length == elements
      reads `free, elNext, elPrevious
    {
      && free == Nth(c, 0)
      && (forall i | 0 <= i < |c| :: 0 <= c[i] < elements)
      && (forall i | 0 <= i < |c| :: ChainAt(c, i))
      && (forall i, j | 0 <= i < j < |c| :: c[i] != c[j])
    }

    ghost predicate ChainAt(c: seq<int>, i: int)
      requires 0 <= i < |c| && 0 <= c[i] < elNext.Length == elPrevious.Length
      reads elNext, elPrevious
    {
      elNext[c[i]] == Nth(c, i + 1) && elPrevious[c[i]] == Nth(c, i - 1)
    }

    constructor (base: int, size: nat, num: nat)
      requires size > 0 && num > 0
      ensures Valid() && View() == Block(base, size, num, {})
      ensures num_free == num && previous == null && next == null && chain == seq(num, i => i)
      ensures fresh(elNext) && fresh(elPrevious) && fresh(elPtr)
    {
      buffer, this.size, elements := base, size, num;
      previous, next, num_free, free := null, null, num, 0;
      elNext, elPrevious, elPtr := new int[num], new int[num], new int[num];
      chain, used := seq(num, i => i), {};
      new;
      LinkElements();
      assert forall k | 0 <= k < num :: chain[k] == k;
      forall k | 0 <= k < num ensures k in chain { assert chain[k] == k; }
    }

    /** Chains all elements of a new block in address order. */
    method LinkElements()
      requires elements > 0
      requires elNext.Length == elements && elPrevious.Length == elements && elPtr.Length == elements
      requires elNext != elPrevious && elPrevious != elPtr && elNext != elPtr
      modifies elNext, elPrevious, elPtr
      ensures forall k | 0 <= k < elements :: elPtr[k] == Address(View(), k)
      ensures forall k | 0 <= k < elements ::
                elPrevious[k] == k - 1 && elNext[k] == if k == elements - 1 then -1 else k + 1
    {
      var prev, ptr := -1, buffer;
      for i := 0 to elements
        invariant prev == i - 1 && ptr == Address(View(), i)
        invariant forall k | 0 <= k < i :: elPrevious[k] == k - 1 && elNext[k] == k + 1
        invariant forall k | 0 <= k < i :: elPtr[k] == Address(View(), k)
      {
        elPrevious[i] := prev;
        elNext[i] := i + 1;
        elPtr[i] := ptr;
        ptr := ptr + size;
        prev := i;
      }
      elNext[elements - 1] := -1;
    }

    /** Takes the first element out of the free chain. */
    method Take() returns (ptr: int, ghost k: int)
      requires Valid() && num_free > 0
      modifies this`free, this`num_free, this`chain, this`used, elPrevious
      ensures Valid() && num_free == old(num_free) - 1
      ensures 0 <= k < elements && k !in old(used) && used == old(used) + {k}
      ensures ptr == Address(View(), k) && old(|chain|) > 0 && k == old(chain[0]) && chain == old(chain[1..])
    {
      k := chain[0];
      assert ChainAt(chain, 0);
      if |chain| > 1 { assert ChainAt(chain, 1); }
      ptr := elPtr[free];
      free := elNext[free];
      if free != -1 { elPrevious[free] := -1; }
      num_free := num_free - 1;
      chain, used := chain[1..], used + {k};
      assert old(chain) == [k] + chain;
      forall i | 0 <= i < |chain| ensures ChainAt(chain, i) {
        assert old(ChainAt(chain, i + 1));
      }
    }

    /** Puts element `k` in front of the free chain. */
    method Put(k: nat)
      requires Valid() && k in used
      modifies this`free, this`num_free, this`chain, this`used, elNext, elPrevious
      ensures Valid() && num_free == old(num_free) + 1
      ensures used == old(used) - {k} && chain == [k] + old(chain)
    {
      elNext[k] := free;
      elPrevious[k] := -1;
      if free != -1 { elPrevious[free] := k; }
      free := k;
      num_free := num_free + 1;
      chain, used := [k] + chain, used - {k};
      forall i | 0 <= i < |chain| ensures ChainAt(chain, i) {
        if i > 0 { assert old(ChainAt(chain, i - 1)); }
      }
    }
  }
}

module MemoryHeap {
  import opened HeapModel
  import opened HeapBlocks

  // Sizes of the bookkeeping structures on a 64-bit machine.
  const SIZEOF_HEAP := 72
  const SIZEOF_BLOCK := 64
  const SIZEOF_ELEMENT := 24

  datatype MallocResult = Allocated(ptr: int) | OutOfMemory | NotInitialized
  datatype InitResult = Initialized | AlreadyInitialized | IllegalElementSize | InitOutOfMemory
  datatype FreeResult = Freed | HeapCorrupted | ElementNotInHeap | HeapNotInitialized

  /** `(elementsize+3)&0xfffffffc` in the source. */
  function RoundedSize(elementsize: nat): (r: nat)
    ensures r % 4 == 0
    ensures
      var low := elementsize % 0x1_0000_0000;
      if low <= 0xffff_fffc then low <= r < low + 4 else r == 0
  {
    (elementsize + 3) % 0x1_0000_0000 / 4 * 4
  }

  ghost function Objects(b: HeapBlock): set<object> {
    {b, b.elNext, b.elPrevious, b.elPtr}
  }

  ghost function At(bs: seq<HeapBlock>, i: int): HeapBlock? {
    if 0 <= i < |bs| then bs[i] else null
  }

  /** The blocks are valid and have handed out what is recorded. */
  ghost predicate Contents(bs: seq<HeapBlock>, vs: seq<Block>)
    reads bs
    reads set b <- bs :: b.elNext
    reads set b <- bs :: b.elPrevious
    reads set b <- bs :: b.elPtr
  {
    |bs| == |vs| && forall i | 0 <= i < |bs| :: bs[i].Valid() && bs[i].View() == vs[i]
  }

  ghost predicate LinkAt(bs: seq<HeapBlock>, i: int)
    requires 0 <= i < |bs|
    reads bs`next, bs`previous
  {
    bs[i].next == At(bs, i + 1) && bs[i].previous == At(bs, i - 1)
  }

  /** The blocks form a doubly linked list in this order. */
  ghost predicate Links(bs: seq<HeapBlock>)
    reads bs`next, bs`previous
  {
    forall i | 0 <= i < |bs| :: LinkAt(bs, i)
  }

  ghost predicate Separate(bs: seq<HeapBlock>) {
    forall i, j | 0 <= i < j < |bs| :: Objects(bs[i]) !! Objects(bs[j])
  }

  ghost predicate BlocksOk(bs: seq<HeapBlock>, vs: seq<Block>)
    reads bs
    reads set b <- bs :: b.elNext
    reads set b <- bs :: b.elPrevious
    reads set b <- bs :: b.elPtr
  {
    Separate(bs) && Contents(bs, vs) && Links(bs)
  }

  method TakeAt(bl: HeapBlock, ghost bs: seq<HeapBlock>, ghost vs: seq<Block>, ghost i: nat)
    returns (ptr: int, ghost k: int)
    requires BlocksOk(bs, vs) && i < |bs| && bs[i] == bl && bl.num_free > 0
    modifies bl`free, bl`num_free, bl`chain, bl`used, bl.elPrevious
    ensures |bs| == |vs| && 0 <= k < vs[i].elements && k !in vs[i].used && ptr == Address(vs[i], k)
    ensures old(|bl.chain|) > 0 && k == old(bl.chain[0])
    ensures BlocksOk(bs, vs[i := vs[i].(used := vs[i].used + {k})])
  {
    hide HeapBlock.Valid;
    assert allocated(bs);
    ptr, k := bl.Take();
    ghost var vs' := vs[i := vs[i].(used := vs[i].used + {k})];
    forall j | 0 <= j < |bs| ensures bs[j].Valid() && bs[j].View() == vs'[j] {
      if j != i { assert Objects(bs[j]) !! Objects(bl) && old(bs[j].Valid()); }
    }
  }

  method PutAt(bl: HeapBlock, k: nat, ghost bs: seq<HeapBlock>, ghost vs: seq<Block>, ghost i: nat)
    requires BlocksOk(bs, vs) && i < |bs| == |vs| && bs[i] == bl && k in vs[i].used
    modifies bl`free, bl`num_free, bl`chain, bl`used, bl.elPrevious, bl.elNext
    ensures BlocksOk(bs, vs[i := vs[i].(used := vs[i].used - {k})])
  {
    hide HeapBlock.Valid;
    assert allocated(bs);
    bl.Put(k);
    ghost var vs' := vs[i := vs[i].(used := vs[i].used - {k})];
    forall j | 0 <= j < |bs| ensures bs[j].Valid() && bs[j].View() == vs'[j] {
      if j != i { assert Objects(bs[j]) !! Objects(bl) && old(bs[j].Valid()); }
    }
  }

  ghost predicate NoRepeats(bs: seq<HeapBlock>) {
    forall i, j | 0 <= i < j < |bs| :: bs[i] != bs[j]
  }

  /** Hooks a new block in at the head of the list. */
  method Prepend(bl: HeapBlock, head: HeapBlock?, ghost bs: seq<HeapBlock>)
    requires NoRepeats(bs) && bl !in bs && Links(bs) && head == At(bs, 0) && bl.previous == null
    modifies bl`next, bs`previous
    ensures Links([bl] + bs)
  {
    bl.next := head;
    if bl.next != null { bl.next.previous := bl; }
    ghost var bs' := [bl] + bs;
    forall j | 0 <= j < |bs'| ensures LinkAt(bs', j) {
      if j > 0 { assert bs'[j] == bs[j - 1] && old(LinkAt(bs, j - 1)); }
    }
  }

  /** Takes block number `i > 0` out of the doubly linked list. */
  method Unhook(bl: HeapBlock, ghost bs: seq<HeapBlock>, ghost i: nat)
    requires NoRepeats(bs) && Links(bs) && 0 < i < |bs| && bs[i] == bl
    modifies bs`next, bs`previous
    ensures Links(Without(bs, i)) && bl.next == old(bl.next)
  {
    assert LinkAt(bs, i) && LinkAt(bs, i - 1);
    if bl.previous != null { bl.previous.next := bl.next; }
    if bl.next != null { bl.next.previous := bl.previous; }
    ghost var bs' := Without(bs, i);
    forall j | 0 <= j < |bs'| ensures LinkAt(bs', j) {
      assert old(LinkAt(bs, if j < i then j else j + 1));
    }
  }

  lemma WithoutContents(bs: seq<HeapBlock>, vs: seq<Block>, i: nat)
    requires Separate(bs) && Contents(bs, vs) && i < |bs|
    ensures Separate(Without(bs, i)) && Contents(Without(bs, i), Without(vs, i))
  {
    hide HeapBlock.Valid;
    var bs', vs' := Without(bs, i), Without(vs, i);
    forall j | 0 <= j < |bs'| ensures bs'[j].Valid() && bs'[j].View() == vs'[j] {
      var j' := if j < i then j else j + 1;
      assert bs'[j] == bs[j'] && vs'[j] == vs[j'];
    }
    forall j, k | 0 <= j < k < |bs'| ensures Objects(bs'[j]) !! Objects(bs'[k]) {
      var j', k' := if j < i then j else j + 1, if k < i then k else k + 1;
      assert Objects(bs[j']) !! Objects(bs[k']);
    }
  }

  lemma SeparateNoRepeats(bs: seq<HeapBlock>)
    requires Separate(bs)
    ensures NoRepeats(bs)
  {
    forall i, j | 0 <= i < j < |bs| ensures bs[i] != bs[j] {
      assert Objects(bs[i]) !! Objects(bs[j]);
    }
  }

  /** What the operating system answers when a block is asked for. */
  datatype Grant = Granted(base: int) | Refused

  /** The address of an element of the first block that has a free one. */
  ghost predicate FromFirst(vs: seq<Block>, ptr: int) {
    exists i, k ::
      && 0 <= i < |vs| && ptr == Address(vs[i], k)
      && |vs[i].used| < vs[i].elements && forall j | 0 <= j < i :: |vs[j].used| == vs[j].elements
  }

  lemma Distribute(a: int, b: int, c: int, d: int)
    ensures (a + b) * (c + d) == a * c + b * c + (a + b) * d
  {
  }

  class MemoryHeap {
    var blocks: HeapBlock?
    var myElementSize: nat
    var increaseSize: nat
    var myGrowPercent: nat
    var blocksAllocated: int
    var blocksUsed: int
    var mem_allocated: int
    var mem_used: int
    var freeCount: nat

    /** The block list and what its blocks have handed out. */
    ghost var list: seq<HeapBlock>
    ghost var views: seq<Block>
    ghost var repr: set<object>

    /** The counters are what a walk over these blocks would find. */
    ghost predicate CountersFor(vs: seq<Block>)
      reads this`blocksAllocated, this`blocksUsed, this`mem_allocated, this`mem_used, this`myElementSize
    {
      && blocksAllocated == ElementCount(vs)
      && blocksUsed == UsedCount(vs)
      && mem_allocated == SIZEOF_HEAP + SIZEOF_BLOCK * |vs| + (myElementSize + SIZEOF_ELEMENT) * ElementCount(vs)
      && mem_used == SIZEOF_HEAP + SIZEOF_BLOCK * |vs| + (myElementSize + SIZEOF_ELEMENT) * UsedCount(vs)
    }

    ghost predicate Owned(bs: seq<HeapBlock>)
      reads this
    {
      this in repr && forall i | 0 <= i < |bs| :: Objects(bs[i]) <= repr
    }

    ghost predicate Valid()
      reads this, repr
    {
      && (if myElementSize == 0 then list == [] else increaseSize > 0)
      && |list| == |views| && Owned(list) && blocks == At(list, 0) && BlocksOk(list, views)
      && Placed(views, myElementSize) && CountersFor(views)
    }

    /** The addresses handed out and not given back. */
    ghost function LiveSet(): set<int>
      reads this
    {
      Live(views)
    }

    constructor ()
      ensures Valid() && myElementSize == 0 && views == [] && fresh(repr)
    {
      blocks := null;
      myElementSize, increaseSize, blocksAllocated, blocksUsed, freeCount := 0, 0, 0, 0, 0;
      myGrowPercent := 30;
      mem_allocated, mem_used := SIZEOF_HEAP, SIZEOF_HEAP;
      list, views, repr := [], [], {this};
    }

    /** Takes an element out of block number `i`. */
    method TakeFrom(bl: HeapBlock, ghost i: nat) returns (ptr: int, ghost k: int)
      requires Valid() && i < |list| && list[i] == bl && bl.num_free > 0
      modifies this`mem_used, this`blocksUsed, this`views
      modifies bl`free, bl`num_free, bl`chain, bl`used, bl.elPrevious
      ensures Valid()
      ensures ptr !in old(LiveSet()) && LiveSet() == old(LiveSet()) + {ptr}
      ensures blocksUsed == old(blocksUsed) + 1
      ensures i < old(|views|) && ptr == Address(old(views)[i], k) && old(|bl.chain|) > 0 && k == old(bl.chain[0])
      ensures views == old(views)[i := old(views)[i].(used := old(views)[i].used + {k})]
    {
      hide Live, UsedCount, ElementCount, Placed, BlocksOk;
      ptr, k := TakeAt(bl, list, views, i);
      UseElement(views, myElementSize, i, k);
      mem_used := mem_used + (myElementSize + SIZEOF_ELEMENT);
      blocksUsed := blocksUsed + 1;
      views := views[i := views[i].(used := views[i].used + {k})];
    }

    /** May the operating system place a buffer for `num` elements at `base`? */
    ghost predicate Grantable(os: Grant, num: nat)
      reads this
    {
      os.Granted? ==>
        forall i | 0 <= i < |views| :: GapBetween(Block(os.base, myElementSize, num, {}), views[i])
    }

    /** The system never places a buffer on one that is in use: an offer that would
        do so, or touch one, is no offer. */
    method Screen(offer: Grant, num: nat) returns (os: Grant)
      requires Valid()
      ensures Grantable(os, num) && os == if Grantable(offer, num) then offer else Refused
    {
      if offer.Refused? { return Refused; }
      hide Live, UsedCount, ElementCount, Placed, CountersFor, HeapBlock.Valid;
      var bl := blocks;
      ghost var i := 0;
      while bl != null
        invariant i <= |list| && bl == At(list, i)
        invariant forall j | 0 <= j < i :: GapBetween(Block(offer.base, myElementSize, num, {}), views[j])
        decreases |list| - i
      {
        assert LinkAt(list, i) && list[i].View() == views[i];
        if !(offer.base + num * myElementSize < bl.buffer || bl.buffer + bl.elements * bl.size < offer.base) {
          return Refused;
        }
        bl, i := bl.next, i + 1;
      }
      return offer;
    }

    /** The system's answer when it has memory to give or has none: a buffer at the
        given address if that is free, and else behind all buffers in use. */
    method Ask(granted: bool, hint: int, num: nat) returns (os: Grant)
      requires Valid()
      ensures Grantable(os, num) && (os.Granted? <==> granted)
      ensures granted && Grantable(Granted(hint), num) ==> os == Granted(hint)
    {
      if !granted { return Refused; }
      os := Screen(Granted(hint), num);
      if os.Refused? {
        var base := BehindAll();
        os := Granted(base);
      }
    }

    method BehindAll() returns (base: int)
      requires Valid()
      ensures forall i | 0 <= i < |views| :: End(views[i]) < base
    {
      hide Live, UsedCount, ElementCount, Placed, CountersFor, HeapBlock.Valid;
      base := 1;
      var bl := blocks;
      ghost var i := 0;
      while bl != null
        invariant i <= |list| && bl == At(list, i)
        invariant forall j | 0 <= j < i :: End(views[j]) < base
        decreases |list| - i
      {
        assert LinkAt(list, i) && list[i].View() == views[i];
        if bl.buffer + bl.elements * bl.size >= base { base := bl.buffer + bl.elements * bl.size + 1; }
        bl, i := bl.next, i + 1;
      }
    }

    method Increase(num: nat, os: Grant) returns (ok: bool)
      requires Valid() && myElementSize > 0 && num > 0 && Grantable(os, num)
      modifies repr
      ensures Valid() && fresh(repr - old(repr)) && ok == os.Granted?
      ensures !ok ==> views == old(views)
      ensures ok ==> views == [Block(os.base, myElementSize, num, {})] + old(views)
      ensures LiveSet() == old(LiveSet()) && myElementSize == old(myElementSize)
      ensures increaseSize == old(increaseSize) && myGrowPercent == old(myGrowPercent)
      ensures blocksUsed == old(blocksUsed)
      ensures |list| == old(|list|) + if ok then 1 else 0
      ensures blocksAllocated == old(blocksAllocated) + if ok then num else 0
      ensures freeCount == old(freeCount)
    {
      if os.Refused? { return false; }
      hide Live, UsedCount, ElementCount, Placed, BlocksOk, HeapBlock.Valid, CountersFor;
      var bl := MakeBlock(num, os.base);
      NewBlock(views, bl.View(), myElementSize);
      Install(bl, num, bl.View());
      return true;
    }

    method MakeBlock(num: nat, base: int) returns (bl: HeapBlock)
      requires Owned(list) && BlocksOk(list, views) && blocks == At(list, 0)
      requires myElementSize > 0 && num > 0
      modifies list`previous
      ensures fresh(Objects(bl)) && bl.View() == Block(base, myElementSize, num, {})
      ensures BlockOk(bl.View(), myElementSize)
      ensures BlocksOk([bl] + list, [bl.View()] + views)
    {
      hide HeapBlock.Valid;
      bl := new HeapBlock(base, myElementSize, num);
      forall i | 0 <= i < |list| ensures Objects(bl) !! Objects(list[i]) {
        assert Objects(list[i]) <= repr;
      }
      AddBlock(bl, list, views);
    }

    /** The bookkeeping for a new block of `num` elements. */
    method Install(bl: HeapBlock, num: nat, ghost b: Block)
      requires myElementSize > 0 && increaseSize > 0 && |list| == |views| && Owned(list)
      requires BlocksOk([bl] + list, [b] + views) && Placed([b] + views, myElementSize)
      requires CountersFor(views) && UsedCount([b] + views) == UsedCount(views)
      requires ElementCount([b] + views) == num + ElementCount(views)
      modifies this
      ensures Valid() && list == [bl] + old(list) && views == [b] + old(views)
      ensures repr == old(repr) + Objects(bl)
      ensures myElementSize == old(myElementSize)
      ensures blocksUsed == old(blocksUsed)
      ensures increaseSize == old(increaseSize) && myGrowPercent == old(myGrowPercent)
      ensures freeCount == old(freeCount)
    {
      hide UsedCount, ElementCount, Live, Placed, BlocksOk;
      Distribute(myElementSize, SIZEOF_ELEMENT, num, ElementCount(views));
      blocks := bl;
      blocksAllocated := blocksAllocated + num;
      mem_allocated := mem_allocated + SIZEOF_BLOCK + (myElementSize * num + SIZEOF_ELEMENT * num);
      mem_used := mem_used + SIZEOF_BLOCK;
      list, views, repr := [bl] + list, [b] + views, repr + Objects(bl);
    }

    /** Hooks a new block in front of the others. */
    method AddBlock(bl: HeapBlock, ghost bs: seq<HeapBlock>, ghost vs: seq<Block>)
      requires BlocksOk(bs, vs) && blocks == At(bs, 0) && bl.Valid() && bl.previous == null
      requires forall i | 0 <= i < |bs| :: Objects(bl) !! Objects(bs[i])
      modifies bl`next, bs`previous
      ensures BlocksOk([bl] + bs, [bl.View()] + vs)
    {
      hide HeapBlock.Valid;
      assert allocated(bs);
      SeparateNoRepeats(bs);
      Prepend(bl, blocks, bs);
      ghost var bs' := [bl] + bs;
      forall j | 0 <= j < |bs| ensures bs[j].Valid() && bs[j].View() == vs[j] {
        assert old(bs[j].Valid());
      }
    }

    /** Block number `i` has a free element, and none in front of it has one. */
    ghost predicate FirstFree(i: nat)
      reads this
    {
      && i < |views| && |views[i].used| < views[i].elements
      && forall j | 0 <= j < i :: |views[j].used| == views[j].elements
    }

    /** Walks along the list to the first block with a free element. */
    method FindFree() returns (bl: HeapBlock?, ghost i: nat)
      requires Valid()
      ensures bl != null ==> i < |list| && list[i] == bl && bl.num_free > 0 && FirstFree(i)
      ensures bl == null <==> blocksUsed == blocksAllocated
    {
      bl, i := blocks, 0;
      while bl != null
        invariant i <= |list| && bl == At(list, i)
        invariant forall j | 0 <= j < i :: |views[j].used| == views[j].elements
        decreases |list| - i
      {
        assert LinkAt(list, i) && list[i].Valid() && list[i].View() == views[i];
        if bl.num_free > 0 {
          SomeFree(views, i, myElementSize);
          return;
        }
        bl, i := bl.next, i + 1;
      }
      AllUsed(views);
    }

    /** One pass over the blocks in search of a free element. */
    method TakeAny() returns (found: bool, ptr: int)
      requires Valid()
      modifies repr
      ensures Valid() && repr == old(repr) && list == old(list) && myElementSize == old(myElementSize)
      ensures found <==> old(blocksUsed != blocksAllocated)
      ensures found ==> ptr !in old(LiveSet()) && LiveSet() == old(LiveSet()) + {ptr}
      ensures found ==> blocksUsed == old(blocksUsed) + 1
      ensures found ==> FromFirst(old(views), ptr)
      ensures !found ==> views == old(views) && blocksUsed == old(blocksUsed)
      ensures blocksAllocated == old(blocksAllocated)
      ensures increaseSize == old(increaseSize) && myGrowPercent == old(myGrowPercent)
      ensures freeCount == old(freeCount)
    {
      hide Live, UsedCount, ElementCount, Placed, CountersFor, HeapBlock.Valid;
      var bl, i := FindFree();
      found, ptr := bl != null, 0;
      if bl != null {
        assert Objects(list[i]) <= repr;
        ghost var k;
        ptr, k := TakeFrom(bl, i);
      }
    }

    /** Adds a block and makes the next one larger. */
    method Grow(os: Grant) returns (ok: bool)
      requires Valid() && myElementSize > 0 && Grantable(os, increaseSize)
      modifies repr
      ensures Valid() && fresh(repr - old(repr)) && ok == os.Granted?
      ensures LiveSet() == old(LiveSet()) && myElementSize == old(myElementSize)
      ensures blocksUsed == old(blocksUsed)
      ensures |list| == old(|list|) + if ok then 1 else 0
      ensures ok ==> blocksAllocated == old(blocksAllocated) + old(increaseSize) > old(blocksAllocated)
      ensures !ok ==> views == old(views) && increaseSize == old(increaseSize)
      ensures !ok ==> blocksAllocated == old(blocksAllocated)
      ensures ok ==> NextIncrease(old(increaseSize), myGrowPercent, increaseSize)
      ensures ok ==> views == [Block(os.base, myElementSize, old(increaseSize), {})] + old(views)
      ensures myGrowPercent == old(myGrowPercent)
      ensures freeCount == old(freeCount)
    {
      hide Live, UsedCount, ElementCount, Placed, BlocksOk, CountersFor;
      ok := Increase(increaseSize, os);
      if ok { increaseSize := increaseSize + increaseSize * myGrowPercent / 100; }
    }

    /** The blocks among which the next element is found: with a new one in front if the
        pool is full and the system gives memory. */
    ghost function Stock(os: Grant): seq<Block>
      reads this
    {
      if blocksUsed == blocksAllocated && os.Granted?
      then [Block(os.base, myElementSize, increaseSize, {})] + views
      else views
    }

    method Malloc(os: Grant) returns (r: MallocResult)
      requires Valid() && Grantable(os, increaseSize)
      modifies repr
      ensures Valid() && fresh(repr - old(repr)) && myElementSize == old(myElementSize)
      ensures r == NotInitialized <==> myElementSize == 0
      ensures r == OutOfMemory <==> myElementSize > 0 && old(blocksUsed == blocksAllocated) && os.Refused?
      ensures r.Allocated? ==> r.ptr !in old(LiveSet()) && LiveSet() == old(LiveSet()) + {r.ptr}
      ensures r.Allocated? ==> blocksUsed == old(blocksUsed) + 1
      ensures !r.Allocated? ==> LiveSet() == old(LiveSet()) && blocksUsed == old(blocksUsed)
      ensures |list| == old(|list|) + if r.Allocated? && old(blocksUsed == blocksAllocated) then 1 else 0
      ensures blocksAllocated == old(blocksAllocated)
                                 + if r.Allocated? && old(blocksUsed == blocksAllocated) then old(increaseSize) else 0
      ensures r.Allocated? ==> old(increaseSize) > 0
      ensures myGrowPercent == old(myGrowPercent)
      ensures if r.Allocated? && old(blocksUsed == blocksAllocated)
              then NextIncrease(old(increaseSize), myGrowPercent, increaseSize)
              else increaseSize == old(increaseSize)
      ensures freeCount == old(freeCount)
      ensures r.Allocated? ==> FromFirst(old(Stock(os)), r.ptr)
    {
      if myElementSize == 0 { return NotInitialized; }
      hide Live, UsedCount, ElementCount, Placed, BlocksOk, CountersFor, FromFirst, NextIncrease;
      ghost var grown := false;
      while true
        invariant Valid() && fresh(repr - old(repr)) && myElementSize == old(myElementSize) > 0
        invariant LiveSet() == old(LiveSet()) && blocksUsed == old(blocksUsed)
        invariant |list| == old(|list|) + if grown then 1 else 0
        invariant !grown ==> blocksAllocated == old(blocksAllocated) && increaseSize == old(increaseSize)
        invariant views == if grown then old(Stock(os)) else old(views)
        invariant grown ==> os.Granted? && blocksUsed < blocksAllocated && old(blocksUsed == blocksAllocated)
        invariant grown ==> blocksAllocated == old(blocksAllocated) + old(increaseSize)
        invariant grown ==> NextIncrease(old(increaseSize), myGrowPercent, increaseSize)
        invariant myGrowPercent == old(myGrowPercent) && freeCount == old(freeCount)
        decreases !grown
      {
        var found, ptr := TakeAny();
        if found { return Allocated(ptr); }
        var ok := Grow(os);
        if !ok { return OutOfMemory; }
        grown := true;
      }
    }

    method Free(mem: int) returns (r: FreeResult)
      requires Valid() && Freeable(views, mem)
      modifies repr
      ensures Valid() && repr == old(repr) && myElementSize == old(myElementSize)
      ensures r == HeapNotInitialized <==> myElementSize == 0
      ensures r == Freed <==> old(LiveWithin32(views, mem))
      ensures r == ElementNotInHeap <==> myElementSize > 0 && old(Foreign(views, mem))
      ensures r == Freed ==> LiveSet() == old(LiveSet()) - {mem} && blocksUsed == old(blocksUsed) - 1
      ensures r == Freed ==> blocksUsed < blocksAllocated <= old(blocksAllocated)
      ensures r != Freed ==> views == old(views) && blocksUsed == old(blocksUsed)
      ensures r != Freed ==> blocksAllocated == old(blocksAllocated)
      ensures increaseSize == old(increaseSize) && myGrowPercent == old(myGrowPercent)
      ensures r == Freed ==> freeCount == if old(freeCount) < 1000 then old(freeCount) + 1 else 0
      ensures r == Freed && old(freeCount) < 1000 ==> blocksAllocated == old(blocksAllocated)
      ensures r == Freed && old(freeCount) >= 1000 ==> Spare(views) <= 1
      ensures r != Freed ==> freeCount == old(freeCount)
    {
      hide Live, UsedCount, ElementCount, Placed, CountersFor, HeapBlock.Valid, HeapBlock.View;
      hide LiveWithin32, Freeable, ElementNumber;
      if myElementSize == 0 {
        EmptyHeap(mem);
        return HeapNotInitialized;
      }
      var bl, i := FindBlock(mem);
      LiveWithinIsLive(views, mem);
      if bl == null {
        ForeignIsNotLive(views, myElementSize, mem);
        return ElementNotInHeap;
      }
      FreeFinds(views, myElementSize, i, mem);
      var element, hit := Probe(bl, mem, i);
      if !hit { return HeapCorrupted; }
      assert Objects(list[i]) <= repr;
      NeverOverfull();
      GiveBack(bl, element, i);
      if freeCount > 1000 {
        KeptSpare(views, false);
        Cleanup();
      }
      return Freed;
    }

    /** Computes the element number and compares the pointer stored there. */
    method Probe(bl: HeapBlock, mem: int, ghost i: nat) returns (element: nat, hit: bool)
      requires Valid() && myElementSize > 0 && i < |list| == |views| && list[i] == bl
      requires views[i].size == myElementSize && 0 <= ElementNumber(views[i], mem) < views[i].elements
      ensures element == ElementNumber(views[i], mem)
      ensures hit <==> Address(views[i], element) == mem
    {
      assert list[i].Valid() && list[i].View() == views[i];
      element := ((mem - bl.buffer) % 0x1_0000_0000) / myElementSize;
      hit := bl.elPtr[element] == mem;
    }

    lemma EmptyHeap(mem: int)
      requires Valid() && myElementSize == 0
      ensures !LiveWithin32(views, mem)
    {
    }

    /** The block whose address range, end included, holds `mem`. */
    method FindBlock(mem: int) returns (bl: HeapBlock?, ghost i: nat)
      requires Valid()
      ensures bl == null <==> Foreign(views, mem)
      ensures bl != null ==> i < |list| == |views| && list[i] == bl && views[i].base <= mem <= End(views[i])
    {
      bl, i := blocks, 0;
      while bl != null
        invariant i <= |list| && bl == At(list, i)
        invariant forall j | 0 <= j < i :: !(views[j].base <= mem <= End(views[j]))
        decreases |list| - i
      {
        assert LinkAt(list, i) && list[i].Valid() && list[i].View() == views[i];
        assert BlockOk(views[i], myElementSize);
        var bufferend := bl.buffer + bl.elements * bl.size;
        if bl.buffer <= mem <= bufferend { return; }
        bl, i := bl.next, i + 1;
      }
    }

    method GiveBack(bl: HeapBlock, element: nat, ghost i: nat)
      requires Valid() && i < |list| == |views| && list[i] == bl && element in views[i].used
      modifies this`mem_used, this`blocksUsed, this`views, this`freeCount
      modifies bl`free, bl`num_free, bl`chain, bl`used, bl.elPrevious, bl.elNext
      ensures Valid() && freeCount == old(freeCount) + 1
      ensures LiveSet() == old(LiveSet()) - {Address(old(views[i]), element)}
      ensures blocksUsed == old(blocksUsed) - 1
      ensures repr == old(repr) && myElementSize == old(myElementSize) && blocksAllocated == old(blocksAllocated)
    {
      hide Live, UsedCount, ElementCount, Placed, BlocksOk;
      PutAt(bl, element, list, views, i);
      ReleaseElement(views, myElementSize, i, element);
      mem_used := mem_used - (myElementSize + SIZEOF_ELEMENT);
      blocksUsed := blocksUsed - 1;
      freeCount := freeCount + 1;
      views := views[i := views[i].(used := views[i].used - {element})];
    }

    /** Releases all wholly free blocks but the first one. */
    method Cleanup()
      requires Valid()
      modifies repr
      ensures Valid() && repr == old(repr) && myElementSize == old(myElementSize)
      ensures views == Kept(old(views), false) && freeCount == 0
      ensures LiveSet() == old(LiveSet()) && blocksUsed == old(blocksUsed)
      ensures blocksAllocated <= old(blocksAllocated)
      ensures old(blocksUsed < blocksAllocated) ==> blocksUsed < blocksAllocated
      ensures increaseSize == old(increaseSize) && myGrowPercent == old(myGrowPercent)
    {
      hide Live, UsedCount, ElementCount, Placed, CountersFor, HeapBlock.Valid, BlocksOk;
      UsedCounted();
      var bl, flag := blocks, false;
      ghost var i := 0;
      while bl != null
        invariant Valid() && repr == old(repr) && myElementSize == old(myElementSize)
        invariant increaseSize == old(increaseSize) && myGrowPercent == old(myGrowPercent)
        invariant |list| == |views| && i <= |list| && bl == At(list, i) && (flag ==> i > 0)
        invariant Kept(old(views), false) == views[..i] + Kept(views[i..], flag)
        decreases |list| - i
      {
        var next, free := Inspect(bl, i);
        if free && flag {
          KeptSkips(views, i);
          DropBlock(bl, i);
        } else {
          KeptTakes(views, i, flag);
          flag := flag || free;
          i := i + 1;
        }
        bl := next;
      }
      freeCount := 0;
      UsedCounted();
      KeptLive(old(views), false);
      KeptFree(old(views), myElementSize, false);
    }

    lemma UsedCounted()
      requires Valid()
      ensures blocksUsed == UsedCount(views) && blocksAllocated == ElementCount(views)
      ensures Placed(views, myElementSize)
    {
    }

    /** What the cleanup loop reads from a block. */
    method Inspect(bl: HeapBlock, ghost i: nat) returns (next: HeapBlock?, free: bool)
      requires Valid() && i < |list| == |views| && list[i] == bl
      ensures next == At(list, i + 1) && (free <==> views[i].used == {})
    {
      assert LinkAt(list, i) && list[i].Valid() && list[i].View() == views[i];
      next, free := bl.next, bl.num_free == bl.elements;
    }

    /** Gives a wholly free block that is not the first one back. */
    method DropBlock(bl: HeapBlock, ghost i: nat)
      requires Valid() && 0 < i < |list| == |views| && list[i] == bl && views[i].used == {}
      modifies repr
      ensures Valid() && repr == old(repr) && myElementSize == old(myElementSize)
      ensures |list| == |views| && list == Without(old(list), i) && views == Without(old(views), i)
      ensures LiveSet() == old(LiveSet()) && blocksUsed == old(blocksUsed)
      ensures increaseSize == old(increaseSize) && myGrowPercent == old(myGrowPercent)
    {
      hide Live, UsedCount, ElementCount, Placed, HeapBlock.Valid, BlocksOk, CountersFor;
      DropSpare(views, myElementSize, i);
      BlockFacts(i);
      UnhookAt(bl, list, views, i);
      // The head of the list is never released: an earlier block was found to be free.
      Uninstall(bl.elements, i);
    }

    /** The bookkeeping for a block that is gone. */
    method Uninstall(elements: nat, ghost i: nat)
      requires 0 < i < |list| == |views| && views[i].elements == elements
      requires myElementSize > 0 && increaseSize > 0 && Owned(list) && blocks == At(list, 0)
      requires BlocksOk(Without(list, i), Without(views, i)) && Placed(Without(views, i), myElementSize)
      requires CountersFor(views) && UsedCount(Without(views, i)) == UsedCount(views)
      requires ElementCount(Without(views, i)) == ElementCount(views) - elements
      modifies this
      ensures Valid() && repr == old(repr) && myElementSize == old(myElementSize)
      ensures list == Without(old(list), i) && views == Without(old(views), i)
      ensures blocksUsed == old(blocksUsed)
      ensures increaseSize == old(increaseSize) && myGrowPercent == old(myGrowPercent)
    {
      hide UsedCount, ElementCount, Live, Placed, BlocksOk;
      Distribute(myElementSize, SIZEOF_ELEMENT, elements, ElementCount(Without(views, i)));
      blocksAllocated := blocksAllocated - elements;
      mem_allocated := mem_allocated - (SIZEOF_BLOCK + (myElementSize * elements + SIZEOF_ELEMENT * elements));
      mem_used := mem_used - SIZEOF_BLOCK;
      list, views := Without(list, i), Without(views, i);
    }

    lemma BlockFacts(i: nat)
      requires Valid() && 0 < i < |list|
      ensures list[i].View() == views[i] && list[i] != list[0]
    {
      SeparateNoRepeats(list);
    }

    method UnhookAt(bl: HeapBlock, ghost bs: seq<HeapBlock>, ghost vs: seq<Block>, ghost i: nat)
      requires BlocksOk(bs, vs) && 0 < i < |bs| == |vs| && bs[i] == bl
      modifies bs`next, bs`previous
      ensures BlocksOk(Without(bs, i), Without(vs, i))
    {
      hide HeapBlock.Valid;
      assert allocated(bs);
      SeparateNoRepeats(bs);
      Unhook(bl, bs, i);
      forall j | 0 <= j < |bs| ensures bs[j].Valid() && bs[j].View() == vs[j] {
        assert old(bs[j].Valid());
      }
      WithoutContents(bs, vs, i);
    }

    /** Gives all memory back at once. */
    method Clear()
      requires Valid()
      modifies this
      ensures Valid() && repr == old(repr) && myElementSize == old(myElementSize)
      ensures views == [] && LiveSet() == {} && blocksUsed == 0 && blocksAllocated == 0
      ensures increaseSize == old(increaseSize) && myGrowPercent == old(myGrowPercent)
    {
      hide BlocksOk, Placed, Live, UsedCount, ElementCount;
      blocks := null;
      freeCount, blocksAllocated, blocksUsed := 0, 0, 0;
      mem_allocated, mem_used := SIZEOF_HEAP, SIZEOF_HEAP;
      list, views := [], [];
      NoBlocks(myElementSize);
    }

    lemma NoBlocks(size: nat)
      ensures BlocksOk([], []) && Placed([], size)
      ensures Live([]) == {} && UsedCount([]) == 0 && ElementCount([]) == 0
    {
    }

    /** Sets the element size, rounded up to a multiple of four in 32 bits. */
    method Init(elementsize: nat, startnum: nat, increase: nat, growpercent: nat, os: Grant) returns (r: InitResult)
      requires Valid() && increase > 0
      requires myElementSize == 0 ==> RoundedSize(elementsize) > 0
      modifies repr
      ensures Valid() && fresh(repr - old(repr))
      ensures r == AlreadyInitialized <==> old(myElementSize) > 0
      ensures r == IllegalElementSize <==> old(myElementSize) == 0 && elementsize == 0
      ensures r in {AlreadyInitialized, IllegalElementSize} ==> views == old(views)
      ensures r == InitOutOfMemory <==> old(myElementSize) == 0 && elementsize > 0 && startnum > 0 && os.Refused?
      ensures r == Initialized ==>
                && myElementSize == RoundedSize(elementsize) && increaseSize == increase && myGrowPercent == growpercent
                && blocksAllocated == startnum && blocksUsed == 0 && LiveSet() == {}
    {
      if myElementSize > 0 { return AlreadyInitialized; }
      if elementsize == 0 { return IllegalElementSize; }
      myElementSize, increaseSize, myGrowPercent := RoundedSize(elementsize), increase, growpercent;
      if startnum > 0 {
        var ok := Increase(startnum, os);
        if !ok { return InitOutOfMemory; }
      }
      return Initialized;
    }

    method Reserve(num: nat, os: Grant) returns (ok: bool)
      requires Valid() && myElementSize > 0
      requires num > blocksAllocated ==> Grantable(os, num - blocksAllocated)
      modifies repr
      ensures Valid() && fresh(repr - old(repr)) && myElementSize == old(myElementSize)
      ensures ok <==> old(blocksAllocated) >= num || os.Granted?
      ensures blocksAllocated == if ok && num > old(blocksAllocated) then num else old(blocksAllocated)
      ensures LiveSet() == old(LiveSet()) && blocksUsed == old(blocksUsed)
      ensures increaseSize == old(increaseSize) && myGrowPercent == old(myGrowPercent)
    {
      ok := true;
      if num > blocksAllocated { ok := Increase(num - blocksAllocated, os); }
    }

    lemma NeverOverfull()
      requires Valid()
      ensures blocksUsed <= blocksAllocated
    {
      UsedCounted();
      KeptFree(views, myElementSize, false);
    }

    /** The number of elements in use equals the number of distinct live addresses,
        and no two of them are closer than one element. */
    lemma CountIsLive()
      requires Valid()
      ensures blocksUsed == |LiveSet()|
      ensures forall a, c | a in LiveSet() && c in LiveSet() && a < c :: a + myElementSize <= c
    {
      LiveCount(views, myElementSize);
      forall a, c | a in LiveSet() && c in LiveSet() && a < c ensures a + myElementSize <= c {
        LiveApart(views, myElementSize, a, c);
      }
    }
  }

  /** From an empty pool on, `n` elements are handed out after as few growths as can be,
      each larger than the one before by the given percentage. */
  method MallocMany(heap: MemoryHeap, n: nat, hint: int) returns (ghost growths: nat)
    requires heap.Valid() && heap.myElementSize > 0 && heap.blocksAllocated == 0 == heap.blocksUsed
    modifies heap.repr
    ensures heap.Valid() && heap.blocksUsed == n && heap.myGrowPercent == old(heap.myGrowPercent)
    ensures heap.blocksAllocated == Capacity(old(heap.increaseSize), heap.myGrowPercent, growths) >= n
    ensures growths > 0 ==> Capacity(old(heap.increaseSize), heap.myGrowPercent, growths - 1) < n
  {
    hide MemoryHeap.Valid, Capacity, NextIncrease, MemoryHeap.Grantable;
    ghost var (first, percent, steps) := (heap.increaseSize, heap.myGrowPercent, [heap.increaseSize]);
    growths := 0;
    NoCapacity(first, percent);
    for i := 0 to n
      invariant heap.Valid() && fresh(heap.repr - old(heap.repr)) && heap.myElementSize > 0
      invariant heap.myGrowPercent == percent && heap.blocksUsed == i && |steps| == growths + 1
      invariant steps[0] == first && steps[growths] == heap.increaseSize
      invariant forall k | 0 <= k < growths :: NextIncrease(steps[k], percent, steps[k + 1])
      invariant heap.blocksAllocated == Capacity(first, percent, growths) >= i
      invariant growths > 0 ==> Capacity(first, percent, growths - 1) < i
    {
      ghost var full := heap.blocksUsed == heap.blocksAllocated;
      ghost var parts := heap.repr;
      assert allocated(parts);
      var os := heap.Ask(true, hint, heap.increaseSize);
      var r := heap.Malloc(os);
      if full {
        CapacityMore(first, percent, steps);
        steps := steps + [heap.increaseSize];
        growths := growths + 1;
      }
      heap.NeverOverfull();
    }
  }
}
