/** What the links of a well-formed tree are, as a value: every node's fields in
    one map. Pointer surgery is then an update of a few entries of that map. */
module AvlLinks {
  import opened AvlShape

  datatype Cell = Cell(left: Node?, right: Node?, parent: Node?, bal: int)

  ghost function Nodes(t: Tree): set<Node> {
    if t.Nil? then {} else Nodes(t.left) + {t.node} + Nodes(t.right)
  }

  ghost function PathNodes(p: Path): set<Node> {
    if p.Top? then {} else {p.node} + Nodes(Sibling(p)) + PathNodes(p.up)
  }

  ghost function Sibling(p: Path): Tree
    requires !p.Top?
  {
    if p.InLeft? then p.right else p.left
  }

  /** No node occurs twice. */
  ghost predicate Distinct(t: Tree) {
    t.Fork? ==>
      && t.node !in Nodes(t.left) && t.node !in Nodes(t.right) && Nodes(t.left) !! Nodes(t.right)
      && Distinct(t.left) && Distinct(t.right)
  }

  ghost predicate PathDistinct(p: Path) {
    !p.Top? ==>
      && p.node !in Nodes(Sibling(p)) && p.node !in PathNodes(p.up)
      && Nodes(Sibling(p)) !! PathNodes(p.up)
      && Distinct(Sibling(p)) && PathDistinct(p.up)
  }

  ghost predicate Apart(p: Path, t: Tree) {
    Distinct(t) && PathDistinct(p) && Nodes(t) !! PathNodes(p)
  }

  ghost function Ptr(t: Tree): Node? {
    if t.Nil? then null else t.node
  }

  ghost function Owner(p: Path): Node? {
    if p.Top? then null else p.node
  }

  /** The fields node `n` of `t` has when `t` hangs below `parent`. */
  ghost function CellOf(t: Tree, parent: Node?, n: Node): Cell
    requires n in Nodes(t)
  {
    if n == t.node then Cell(Ptr(t.left), Ptr(t.right), parent, t.bal)
    else if n in Nodes(t.left) then CellOf(t.left, t.node, n)
    else CellOf(t.right, t.node, n)
  }

  /** The fields of a node on or beside the path when `hole` hangs at its end. */
  ghost function PathCellOf(p: Path, hole: Node?, n: Node): Cell
    requires n in PathNodes(p)
  {
    if n == p.node then
      if p.InLeft? then Cell(hole, Ptr(p.right), Owner(p.up), p.bal)
      else Cell(Ptr(p.left), hole, Owner(p.up), p.bal)
    else if n in Nodes(Sibling(p)) then CellOf(Sibling(p), p.node, n)
    else PathCellOf(p.up, p.node, n)
  }

  ghost function Field(p: Path, t: Tree, n: Node): Cell
    requires n in Nodes(t) + PathNodes(p)
  {
    if n in Nodes(t) then CellOf(t, Owner(p), n) else PathCellOf(p, Ptr(t), n)
  }

  ghost function Topmost(p: Path, t: Tree): Node? {
    if p.Top? then Ptr(t) else Topmost(p.up, Above(p, t, 0))
  }

  lemma ApartAbove(p: Path, t: Tree)
    requires !p.Top?
    ensures Apart(p, t) <==> Apart(p.up, Above(p, t, 0))
    ensures Nodes(t) + PathNodes(p) == Nodes(Above(p, t, 0)) + PathNodes(p.up)
  {
  }

  lemma FieldAbove(p: Path, t: Tree, n: Node)
    requires !p.Top? && Apart(p, t) && n in Nodes(t) + PathNodes(p)
    ensures n in Nodes(Above(p, t, 0)) + PathNodes(p.up)
    ensures Field(p, t, n) == Field(p.up, Above(p, t, 0), n)
  {
    ApartAbove(p, t);
  }

  lemma {:induction false} PlugNodes(p: Path, t: Tree)
    ensures Apart(p, t) <==> Distinct(Plug(p, t))
    ensures Ptr(Plug(p, t)) == Topmost(p, t)
    ensures Nodes(Plug(p, t)) == Nodes(t) + PathNodes(p)
    decreases p
  {
    if !p.Top? {
      ApartAbove(p, t);
      PlugNodes(p.up, Above(p, t, 0));
    }
  }

  /** Focusing on a subtree changes nothing about the fields. */
  lemma {:induction false} FieldPlug(p: Path, t: Tree, n: Node)
    requires Apart(p, t) && n in Nodes(t) + PathNodes(p)
    ensures n in Nodes(Plug(p, t))
    ensures Field(p, t, n) == CellOf(Plug(p, t), null, n)
    decreases p
  {
    PlugNodes(p, t);
    if !p.Top? {
      ApartAbove(p, t);
      FieldAbove(p, t, n);
      FieldPlug(p.up, Above(p, t, 0), n);
    }
  }

  lemma TwoDeep(t: Tree)
    requires t.Fork?
    ensures t.left.Fork? ==>
              && Nodes(t) == {t.node, t.left.node} + Nodes(t.left.left) + Nodes(t.left.right) + Nodes(t.right)
    ensures t.right.Fork? ==>
              && Nodes(t) == {t.node, t.right.node} + Nodes(t.right.left) + Nodes(t.right.right) + Nodes(t.left)
  {
  }

  lemma LiftLeftApart(p: Path, t: Tree)
    requires Apart(p, t) && t.Fork? && t.left.Fork?
    ensures Nodes(LiftedLeft(t)) == Nodes(t) && Apart(p, LiftedLeft(t))
  {
    var r := LiftedLeft(t);
    TwoDeep(t);
    TwoDeep(r);
    assert Distinct(t.left);
    assert Distinct(r.right);
  }

  lemma LiftRightApart(p: Path, t: Tree)
    requires Apart(p, t) && t.Fork? && t.right.Fork?
    ensures Nodes(LiftedRight(t)) == Nodes(t) && Apart(p, LiftedRight(t))
  {
    var r := LiftedRight(t);
    TwoDeep(t);
    TwoDeep(r);
    assert Distinct(t.right);
    assert Distinct(r.left);
  }

  /** The fields of `t` and its left child, and who they are not. */
  lemma LiftLeftCells(p: Path, t: Tree)
    requires Apart(p, t) && t.Fork? && t.left.Fork?
    ensures {t.node, t.left.node} <= Nodes(t) && t.node != t.left.node
    ensures t.left.right.Fork? ==> t.left.right.node in Nodes(t) - {t.node, t.left.node}
    ensures Owner(p) != null ==> Owner(p) in PathNodes(p) && Owner(p) !in Nodes(t)
    ensures Owner(p) == null <==> p.Top?
    ensures Field(p, t, t.node) == Cell(Ptr(t.left), Ptr(t.right), Owner(p), t.bal)
    ensures Field(p, t, t.left.node) == Cell(Ptr(t.left.left), Ptr(t.left.right), t.node, t.left.bal)
  {
    TwoDeep(t);
    assert Distinct(t.left) && Nodes(t.left) == Nodes(t.left.left) + {t.left.node} + Nodes(t.left.right);
    LeftDeepField(t.left.left, t.left.node, t.left.bal, t.left.right, t.node, t.bal, t.right, Owner(p), t.left.node);
  }

  /** The fields of `t` and its right child, and who they are not. */
  lemma LiftRightCells(p: Path, t: Tree)
    requires Apart(p, t) && t.Fork? && t.right.Fork?
    ensures {t.node, t.right.node} <= Nodes(t) && t.node != t.right.node
    ensures t.right.left.Fork? ==> t.right.left.node in Nodes(t) - {t.node, t.right.node}
    ensures Owner(p) != null ==> Owner(p) in PathNodes(p) && Owner(p) !in Nodes(t)
    ensures Owner(p) == null <==> p.Top?
    ensures Field(p, t, t.node) == Cell(Ptr(t.left), Ptr(t.right), Owner(p), t.bal)
    ensures Field(p, t, t.right.node) == Cell(Ptr(t.right.left), Ptr(t.right.right), t.node, t.right.bal)
  {
    TwoDeep(t);
    assert Distinct(t.right) && Nodes(t.right) == Nodes(t.right.left) + {t.right.node} + Nodes(t.right.right);
    RightDeepField(t.left, t.node, t.bal, t.right.left, t.right.node, t.right.bal, t.right.right, Owner(p), t.right.node);
  }

  /** The links that a rotation around `t` rewrites when it lifts the left child. */
  lemma LiftLeftFields(p: Path, t: Tree, n: Node)
    requires Apart(p, t) && t.Fork? && t.left.Fork? && n in Nodes(t) + PathNodes(p)
    ensures
      var (a, b, c, k, x) := (t.left.left, t.left.right, t.right, t.node, t.left.node);
      && n in Nodes(LiftedLeft(t)) + PathNodes(p)
      && Field(p, LiftedLeft(t), n) ==
         if n == x then Cell(Ptr(a), k, Owner(p), t.left.bal)
         else if n == k then Cell(Ptr(b), Ptr(c), x, t.bal)
         else if n == Ptr(b) then Field(p, t, n).(parent := k)
         else if n == Owner(p) then
           if p.InLeft? then Field(p, t, n).(left := x) else Field(p, t, n).(right := x)
         else Field(p, t, n)
  {
    LiftLeftApart(p, t);
    TwoDeep(t);
    if n in Nodes(t) {
      var (a, b, c, k, x) := (t.left.left, t.left.right, t.right, t.node, t.left.node);
      LeftDeepField(a, x, t.left.bal, b, k, t.bal, c, Owner(p), n);
      RightDeepField(a, x, t.left.bal, b, k, t.bal, c, Owner(p), n);
      if n in Nodes(b) { CellOfParent(b, x, k, n); }
    }
  }

  lemma LiftRightFields(p: Path, t: Tree, n: Node)
    requires Apart(p, t) && t.Fork? && t.right.Fork? && n in Nodes(t) + PathNodes(p)
    ensures
      var (a, b, c, k, x) := (t.left, t.right.left, t.right.right, t.node, t.right.node);
      && n in Nodes(LiftedRight(t)) + PathNodes(p)
      && Field(p, LiftedRight(t), n) ==
         if n == x then Cell(k, Ptr(c), Owner(p), t.right.bal)
         else if n == k then Cell(Ptr(a), Ptr(b), x, t.bal)
         else if n == Ptr(b) then Field(p, t, n).(parent := k)
         else if n == Owner(p) then
           if p.InLeft? then Field(p, t, n).(left := x) else Field(p, t, n).(right := x)
         else Field(p, t, n)
  {
    LiftRightApart(p, t);
    TwoDeep(t);
    if n in Nodes(t) {
      var (a, b, c, k, x) := (t.left, t.right.left, t.right.right, t.node, t.right.node);
      RightDeepField(a, k, t.bal, b, x, t.right.bal, c, Owner(p), n);
      LeftDeepField(a, k, t.bal, b, x, t.right.bal, c, Owner(p), n);
      if n in Nodes(b) { CellOfParent(b, x, k, n); }
    }
  }

  lemma CellOfParent(t: Tree, from: Node?, to: Node?, n: Node)
    requires n in Nodes(t)
    ensures CellOf(t, to, n) ==
            if n == t.node then CellOf(t, from, n).(parent := to) else CellOf(t, from, n)
  {
  }

  /** Looking up a node of a tree with three subtrees a, b, c below the nodes x and k. */
  lemma LeftDeepField(a: Tree, x: Node, xb: int, b: Tree, k: Node, kb: int, c: Tree, o: Node?, n: Node)
    requires var t := Fork(Fork(a, x, xb, b), k, kb, c); Distinct(t) && n in Nodes(t)
    ensures CellOf(Fork(Fork(a, x, xb, b), k, kb, c), o, n) ==
            if n == k then Cell(x, Ptr(c), o, kb)
            else if n == x then Cell(Ptr(a), Ptr(b), k, xb)
            else if n in Nodes(a) then CellOf(a, x, n)
            else if n in Nodes(b) then CellOf(b, x, n)
            else CellOf(c, k, n)
  {
    var l := Fork(a, x, xb, b);
    assert Distinct(l) && Nodes(l) == Nodes(a) + {x} + Nodes(b);
  }

  lemma RightDeepField(a: Tree, x: Node, xb: int, b: Tree, k: Node, kb: int, c: Tree, o: Node?, n: Node)
    requires var t := Fork(a, x, xb, Fork(b, k, kb, c)); Distinct(t) && n in Nodes(t)
    ensures CellOf(Fork(a, x, xb, Fork(b, k, kb, c)), o, n) ==
            if n == x then Cell(Ptr(a), k, o, xb)
            else if n == k then Cell(Ptr(b), Ptr(c), x, kb)
            else if n in Nodes(a) then CellOf(a, x, n)
            else if n in Nodes(b) then CellOf(b, k, n)
            else CellOf(c, k, n)
  {
    var r := Fork(b, k, kb, c);
    assert Distinct(r) && Nodes(r) == Nodes(b) + {k} + Nodes(c);
  }

  lemma ChildBalances(p: Path, t: Tree)
    requires Apart(p, t) && t.Fork?
    ensures t.left.Fork? ==> t.left.node in Nodes(t) && Field(p, t, t.left.node).bal == t.left.bal
    ensures t.right.Fork? ==> t.right.node in Nodes(t) && Field(p, t, t.right.node).bal == t.right.bal
  {
    if t.left.Fork? {
      assert CellOf(t, Owner(p), t.left.node) == CellOf(t.left, t.node, t.left.node);
    }
    if t.right.Fork? {
      assert t.right.node !in Nodes(t.left);
      assert CellOf(t, Owner(p), t.right.node) == CellOf(t.right, t.node, t.right.node);
    }
  }

  lemma RotateNodes(t: Tree)
    requires t.Fork? && Lifted(t).Fork?
    ensures Nodes(Rotate(t)) == Nodes(t)
  {
  }

  lemma RotateTwiceNodes(t: Tree)
    requires t.Fork? && Lifted(t).Fork? && Lifted(Lifted(t)).Fork?
    ensures Nodes(RotateTwice(t)) == Nodes(t)
  {
    RotateNodes(Lifted(t));
    RotateNodes(if t.bal < 0 then t.(left := Rotate(t.left)) else t.(right := Rotate(t.right)));
  }

  lemma {:induction false} InOrderNode(t: Tree, n: Node)
    ensures n in InOrder(t) <==> n in Nodes(t)
  {
    if t.Fork? {
      InOrderNode(t.left, n);
      InOrderNode(t.right, n);
    }
  }

  /** Changing what hangs at the end of a path rewrites one field there. */
  lemma PathCellHole(p: Path, hole: Node?, hole': Node?, n: Node)
    requires n in PathNodes(p)
    ensures PathCellOf(p, hole', n) ==
            if n != p.node then PathCellOf(p, hole, n)
            else if p.InLeft? then PathCellOf(p, hole, n).(left := hole')
            else PathCellOf(p, hole, n).(right := hole')
  {
  }

  /** The links once `t` has been taken out and its only son hangs in its place. */
  lemma UnlinkedField(p: Path, t: Tree, n: Node)
    requires !p.Top? && Apart(p, t) && t.Fork? && (t.left.Nil? || t.right.Nil?)
    requires n in Nodes(Son(t)) + PathNodes(p)
    ensures
      var f := Above(p, Son(t), -1);
      && n in Nodes(f) + PathNodes(p.up) && n in Nodes(t) + PathNodes(p)
      && Field(p.up, f, n) ==
         if n == p.node then
           if p.InLeft? then Field(p, t, n).(left := Ptr(Son(t)), bal := f.bal)
           else Field(p, t, n).(right := Ptr(Son(t)), bal := f.bal)
         else if n == Ptr(Son(t)) then Field(p, t, n).(parent := p.node)
         else Field(p, t, n)
  {
    var u := Son(t);
    assert Apart(p, u);
    AboveApart(p, u, -1);
    AboveField(p, u, -1, n);
    FieldAbove(p, u, n);
    if n in Nodes(u) { CellOfParent(u, t.node, p.node, n); } else { PathCellHole(p, t.node, Ptr(u), n); }
  }

  lemma UnlinkedApart(p: Path, t: Tree)
    requires !p.Top? && Apart(p, t) && t.Fork? && (t.left.Nil? || t.right.Nil?)
    ensures Apart(p.up, Above(p, Son(t), -1))
    ensures Nodes(Above(p, Son(t), -1)) + PathNodes(p.up) == Nodes(Son(t)) + PathNodes(p)
    ensures Topmost(p.up, Above(p, Son(t), -1)) == Topmost(p, t)
  {
    assert Apart(p, Son(t));
    AboveApart(p, Son(t), -1);
    ApartAbove(p, Son(t));
    TopmostSame(p.up, Above(p, Son(t), -1), Above(p, t, 0));
  }

  lemma UnlinkedRootField(t: Tree, n: Node)
    requires Apart(Top, t) && t.Fork? && (t.left.Nil? || t.right.Nil?) && n in Nodes(Son(t))
    ensures n in Nodes(t)
    ensures Field(Top, Son(t), n) ==
            if n == Ptr(Son(t)) then Field(Top, t, n).(parent := null) else Field(Top, t, n)
  {
    CellOfParent(Son(t), t.node, null, n);
  }

  /** Where node `n` of `t` sits. */
  ghost function Locate(p: Path, t: Tree, n: Node): (spot: (Path, Tree))
    requires n in Nodes(t)
    ensures Ptr(spot.1) == n && Plug(spot.0, spot.1) == Plug(p, t)
    decreases t
  {
    if n == t.node then (p, t)
    else if n in Nodes(t.left) then Locate(InLeft(p, t.node, t.bal, t.right), t.left, n)
    else Locate(InRight(p, t.left, t.node, t.bal), t.right, n)
  }

  /** A node has only one place. */
  lemma LocatePlug(p: Path, t: Tree)
    requires t.Fork? && Apart(p, t)
    ensures t.node in Nodes(Plug(p, t)) && Locate(Top, Plug(p, t), t.node) == (p, t)
  {
    PlugNodes(p, t);
    LocateWithin(p, t, t.node);
  }

  lemma {:induction false} LocateWithin(p: Path, t: Tree, n: Node)
    requires Apart(p, t) && n in Nodes(t)
    ensures n in Nodes(Plug(p, t)) && Locate(Top, Plug(p, t), n) == Locate(p, t, n)
    decreases p
  {
    PlugNodes(p, t);
    if !p.Top? {
      ApartAbove(p, t);
      LocateWithin(p.up, Above(p, t, 0), n);
    }
  }

  /** The position of a place in the sorted sequence. */
  ghost function Rank(p: Path, t: Tree): nat
    requires t.Fork?
  {
    |Before(p)| + |InOrder(t.left)|
  }

  /** The rightmost node on the left comes just before, the leftmost on the right just after. */
  lemma RankBelow(p: Path, t: Tree)
    requires t.Fork?
    ensures t.left.Fork? ==>
              var (q, u) := Extreme(InLeft(p, t.node, t.bal, t.right), t.left, true);
              Rank(q, u) + 1 == Rank(p, t)
    ensures t.right.Fork? ==>
              var (q, u) := Extreme(InRight(p, t.left, t.node, t.bal), t.right, false);
              Rank(q, u) == Rank(p, t) + 1
  {
    if t.left.Fork? {
      var l := InLeft(p, t.node, t.bal, t.right);
      var (q, u) := Extreme(l, t.left, true);
      RightmostInOrder(l, t.left);
      hide Extreme;
      InOrderFork(u);
      assert |Before(q) + InOrder(u)| == |Before(p) + InOrder(t.left)|;
    }
    if t.right.Fork? {
      var r := InRight(p, t.left, t.node, t.bal);
      var (q, u) := Extreme(r, t.right, false);
      LeftmostInOrder(r, t.right);
      hide Extreme;
      assert InOrder(u.left) == [];
    }
  }

  lemma RankOf(p: Path, t: Tree)
    requires t.Fork?
    ensures Rank(p, t) < |InOrder(Plug(p, t))| && InOrder(Plug(p, t))[Rank(p, t)] == t.node
  {
    hide Before, After, InOrder, Plug;
    PlugInOrder(p, t);
    InOrderFork(t);
  }

  lemma RankUnique(p: Path, t: Tree, i: nat)
    requires t.Fork? && Apart(p, t)
    requires i < |InOrder(Plug(p, t))| && InOrder(Plug(p, t))[i] == t.node
    ensures i == Rank(p, t)
  {
    hide Before, After, InOrder, Plug;
    PlugInOrder(p, t);
    InOrderFork(t);
    InOrderNode(t.left, t.node);
    InOrderNode(t.right, t.node);
    if t.node in Before(p) { BeforeNode(p, t.node); }
    if t.node in After(p) { AfterNode(p, t.node); }
    var a, b := Before(p) + InOrder(t.left), InOrder(t.right) + After(p);
    assert InOrder(Plug(p, t)) == a + [t.node] + b;
    if i != |a| { Elsewhere(a, t.node, b, i); }
  }

  lemma Elsewhere(a: seq<Node>, x: Node, b: seq<Node>, i: nat)
    requires i < |a + [x] + b| && i != |a|
    ensures (a + [x] + b)[i] in a || (a + [x] + b)[i] in b
  {
    if i > |a| { assert (a + [x] + b)[i] == b[i - |a| - 1]; }
  }

  lemma {:induction false} BeforeNode(p: Path, n: Node)
    requires n in Before(p)
    ensures n in PathNodes(p)
  {
    if p.InRight? && n in InOrder(p.left) {
      InOrderNode(p.left, n);
    } else if n != p.node {
      BeforeNode(p.up, n);
    }
  }

  lemma {:induction false} AfterNode(p: Path, n: Node)
    requires n in After(p)
    ensures n in PathNodes(p)
  {
    if p.InLeft? && n in InOrder(p.right) {
      InOrderNode(p.right, n);
    } else if n != p.node {
      AfterNode(p.up, n);
    }
  }

  /** The leftmost place below an empty left flank is the first of all. */
  lemma FirstNode(q: Path, u: Tree)
    requires u.Fork? && u.left.Nil? && Before(q) == []
    ensures InOrder(Plug(q, u)) != [] && InOrder(Plug(q, u))[0] == u.node
  {
    RankOf(q, u);
  }

  lemma LastNode(q: Path, u: Tree)
    requires u.Fork? && u.right.Nil? && After(q) == []
    ensures var s := InOrder(Plug(q, u)); s != [] && s[|s| - 1] == u.node
  {
    PlugInOrder(q, u);
  }

  // ------------------------------------------------- exchanging two nodes

  function Swapped(a: Node, b: Node, n: Node?): (m: Node?)
    ensures n != null ==> m != null
  {
    if n == a then b else if n == b then a else n
  }

  function SwapTree(a: Node, b: Node, t: Tree): Tree {
    if t.Nil? then Nil
    else Fork(SwapTree(a, b, t.left), Swapped(a, b, t.node), t.bal, SwapTree(a, b, t.right))
  }

  function SwapPath(a: Node, b: Node, p: Path): Path {
    match p
    case Top => Top
    case InLeft(up, n, d, r) => InLeft(SwapPath(a, b, up), Swapped(a, b, n), d, SwapTree(a, b, r))
    case InRight(up, l, n, d) => InRight(SwapPath(a, b, up), SwapTree(a, b, l), Swapped(a, b, n), d)
  }

  function SwapCell(a: Node, b: Node, c: Cell): Cell {
    Cell(Swapped(a, b, c.left), Swapped(a, b, c.right), Swapped(a, b, c.parent), c.bal)
  }

  lemma {:induction false} SwapTreeNodes(a: Node, b: Node, t: Tree)
    ensures forall n: Node :: n in Nodes(SwapTree(a, b, t)) <==> Swapped(a, b, n) in Nodes(t)
    ensures Distinct(t) ==> Distinct(SwapTree(a, b, t))
    ensures a !in Nodes(t) && b !in Nodes(t) ==> SwapTree(a, b, t) == t
  {
    if t.Fork? {
      SwapTreeNodes(a, b, t.left);
      SwapTreeNodes(a, b, t.right);
      assert Swapped(a, b, Swapped(a, b, t.node)) == t.node;
      if Distinct(t) {
        forall n | n in Nodes(SwapTree(a, b, t.left))
          ensures n !in Nodes(SwapTree(a, b, t.right))
        {
          assert Swapped(a, b, n) in Nodes(t.left);
        }
      }
    }
  }

  lemma {:induction false} SwapPathNodes(a: Node, b: Node, p: Path)
    ensures forall n: Node :: n in PathNodes(SwapPath(a, b, p)) <==> Swapped(a, b, n) in PathNodes(p)
    ensures a !in PathNodes(p) && b !in PathNodes(p) ==> SwapPath(a, b, p) == p
  {
    if !p.Top? {
      SwapPathNodes(a, b, p.up);
      SwapTreeNodes(a, b, Sibling(p));
    }
  }

  /** The fields of the exchanged tree are the exchanged fields of the tree. */
  lemma {:induction false} SwapCellOf(a: Node, b: Node, t: Tree, parent: Node?, n: Node)
    requires n in Nodes(t) && Distinct(t)
    ensures Swapped(a, b, n) in Nodes(SwapTree(a, b, t))
    ensures CellOf(SwapTree(a, b, t), Swapped(a, b, parent), Swapped(a, b, n))
         == SwapCell(a, b, CellOf(t, parent, n))
  {
    SwapTreeNodes(a, b, t);
    SwapTreeNodes(a, b, t.left);
    if n != t.node {
      if n in Nodes(t.left) {
        SwapCellOf(a, b, t.left, t.node, n);
      } else {
        SwapCellOf(a, b, t.right, t.node, n);
      }
    }
  }

  /** Links point back: what a node's neighbours store about it. */
  lemma {:induction false} LinksAgree(t: Tree, parent: Node?, n: Node)
    requires Distinct(t) && n in Nodes(t)
    ensures
      var c := CellOf(t, parent, n);
      && (c.left != null ==> c.left in Nodes(t) && CellOf(t, parent, c.left).parent == n)
      && (c.right != null ==> c.right in Nodes(t) && CellOf(t, parent, c.right).parent == n)
      && (c.left != null ==> c.left != c.right && c.left != n) && c.right != n
      && (n == t.node ==> c.parent == parent)
      && (n != t.node ==>
            c.parent in Nodes(t) && c.parent != n
            && (CellOf(t, parent, c.parent).left == n || CellOf(t, parent, c.parent).right == n))
  {
    if n == t.node {
      if t.left.Fork? { assert CellOf(t, parent, t.left.node) == CellOf(t.left, n, t.left.node); }
      if t.right.Fork? { assert CellOf(t, parent, t.right.node) == CellOf(t.right, n, t.right.node); }
    } else {
      var s := if n in Nodes(t.left) then t.left else t.right;
      LinksAgree(s, t.node, n);
      assert forall m | m in Nodes(s) :: CellOf(t, parent, m) == CellOf(s, t.node, m);
    }
  }

  lemma {:induction false} SwapPlug(a: Node, b: Node, p: Path, t: Tree)
    ensures SwapTree(a, b, Plug(p, t)) == Plug(SwapPath(a, b, p), SwapTree(a, b, t))
    decreases p
  {
    if !p.Top? { SwapPlug(a, b, p.up, Above(p, t, 0)); }
  }

  /** Searching the extreme node from the exchanged path finds the exchanged place. */
  lemma {:induction false} ExtremeSwap(a: Node, b: Node, p: Path, t: Tree, rightmost: bool)
    requires t.Fork? && Distinct(t) && a !in Nodes(t) && Extreme(p, t, rightmost).1.node == b
    ensures b in Nodes(t)
    ensures var ((q, u), (q', u')) := (Extreme(p, t, rightmost), Extreme(SwapPath(a, b, p), t, rightmost));
            SwapPath(a, b, q) == q' && SwapTree(a, b, u) == u'.(node := a)
    ensures Owner(Extreme(p, t, rightmost).0) == Owner(p) || Owner(Extreme(p, t, rightmost).0) in Nodes(t)
    decreases t
  {
    if rightmost && t.right.Fork? {
      var q := InRight(p, t.left, t.node, t.bal);
      ExtremeSwap(a, b, q, t.right, true);
      SwapTreeNodes(a, b, t.left);
      assert SwapPath(a, b, q) == InRight(SwapPath(a, b, p), t.left, t.node, t.bal);
    } else if !rightmost && t.left.Fork? {
      var q := InLeft(p, t.node, t.bal, t.right);
      ExtremeSwap(a, b, q, t.left, false);
      SwapTreeNodes(a, b, t.right);
      assert SwapPath(a, b, q) == InLeft(SwapPath(a, b, p), t.node, t.bal, t.right);
    } else {
      SwapTreeNodes(a, b, if rightmost then t.left else t.right);
    }
  }

  /** Swapping a node with its substitute leads to the place `SwapSpot` describes. */
  lemma SwapSpotSwapped(p: Path, t: Tree)
    requires Apart(p, t) && t.Fork? && t.left.Fork? && t.right.Fork?
    ensures var ((q, u), s) := (SwapSpot(p, t), Substitute(t));
            && Swappable(t.node, s, Plug(p, t))
            && SwapTree(t.node, s, Plug(p, t)) == Plug(q, u)
            && s in Nodes(t)
  {
    var a, s := t.node, Substitute(t);
    var p0, l, rightmost := Beneath(p, t, a), if t.bal < 0 then t.left else t.right, t.bal < 0;
    var (q0, u0) := Extreme(p0, l, rightmost);
    ExtremeTree(p0, Top, l, rightmost);
    ExtremePlug(p0, l, rightmost);
    ExtremeSwap(a, s, p0, l, rightmost);
    SwapSpotPath(p, t, s);
    SwapPlug(a, s, q0, u0);
    PlugNodes(p, t);
    PlugNodes(q0, u0);
    FieldPlug(p, t, a);
    FieldPlug(q0, u0, s);
  }

  lemma SwapSpotNodes(p: Path, t: Tree)
    requires Apart(p, t) && t.Fork?
    ensures var (q, u) := SwapSpot(p, t);
            && u.node == t.node && (t.left.Nil? || t.right.Nil? ==> (q, u) == (p, t))
            && Nodes(u) + PathNodes(q) <= Nodes(t) + PathNodes(p)
  {
    hide Extreme;
    if t.left.Fork? && t.right.Fork? {
      var ((q, u), a, s) := (SwapSpot(p, t), t.node, Substitute(t));
      SwapSpotSwapped(p, t);
      hide SwapSpot, Substitute, Nodes, PathNodes, SwapTree, Distinct;
      PlugNodes(p, t);
      PlugNodes(q, u);
      SwapTreeNodes(a, s, Plug(p, t));
      forall n | n in Nodes(u) + PathNodes(q) ensures n in Nodes(t) + PathNodes(p) {
        assert Swapped(a, s, n) in Nodes(Plug(p, t));
      }
    }
  }

  lemma SwapSpotPath(p: Path, t: Tree, s: Node)
    requires Apart(p, t) && t.Fork? && s in Nodes(if t.bal < 0 then t.left else t.right)
    ensures SwapPath(t.node, s, Beneath(p, t, t.node)) == Beneath(p, t, s)
    ensures Plug(Beneath(p, t, t.node), if t.bal < 0 then t.left else t.right) == Plug(p, t)
  {
    SwapPathNodes(t.node, s, p);
    SwapTreeNodes(t.node, s, if t.bal < 0 then t.right else t.left);
  }

  /** A node's fields with links to itself redirected to `other`. */
  ghost function Unselfed(self: Node, other: Node, c: Cell): Cell {
    Cell(if c.left == self then other else c.left, if c.right == self then other else c.right,
         c.parent, c.bal)
  }

  /** May these two nodes of `t` be swapped? They must not be siblings, nor the
      first one a child of the second. */
  ghost predicate Swappable(a: Node, b: Node, t: Tree) {
    && Distinct(t) && a != b && a in Nodes(t) && b in Nodes(t)
    && CellOf(t, null, a).parent != b && CellOf(t, null, a).parent != CellOf(t, null, b).parent
  }

  /** The fields of `n` once the nodes `a` and `b` of `t` have changed places. */
  ghost function AfterSwap(a: Node, b: Node, t: Tree, n: Node): Cell
    requires n in Nodes(t) && a in Nodes(t) && b in Nodes(t)
  {
    SwapCell(a, b, CellOf(t, null, Swapped(a, b, n)))
  }

  /** The same, but other nodes still point to the old children. */
  ghost function HalfSwapped(a: Node, b: Node, t: Tree, n: Node): Cell
    requires n in Nodes(t) && a in Nodes(t) && b in Nodes(t)
  {
    if n == a || n == b then AfterSwap(a, b, t, n)
    else CellOf(t, null, n).(parent := AfterSwap(a, b, t, n).parent)
  }

  /** Which nodes the children's repointing gives a new parent. */
  lemma NewParent(a: Node, b: Node, t: Tree, n: Node)
    requires Swappable(a, b, t) && n in Nodes(t)
    ensures
      var (c1, c2) := (Unselfed(b, a, CellOf(t, null, a)), CellOf(t, null, b));
      var old_ := if n == a then c2 else if n == b then c1 else CellOf(t, null, n);
      HalfSwapped(a, b, t, n) ==
      old_.(parent := if n == c1.left || n == c1.right then b
                      else if n == c2.left || n == c2.right then a
                      else old_.parent)
  {
    LinksAgree(t, null, a);
    LinksAgree(t, null, b);
    LinksAgree(t, null, n);
  }

  lemma SwapWithin(a: Node, b: Node, t: Tree)
    requires Swappable(a, b, t)
    ensures a in Nodes(t) && b in Nodes(t)
    ensures
      var (c1, c2) := (Unselfed(b, a, CellOf(t, null, a)), CellOf(t, null, b));
      && Unselfed(a, b, c2) == c2
      && forall n: Node :: n == c1.left || n == c1.right || n == c2.left || n == c2.right ==> n in Nodes(t)
  {
    LinksAgree(t, null, a);
    LinksAgree(t, null, b);
  }

  lemma NewParentInTree(a: Node, b: Node, t: Tree, n: Node)
    requires Swappable(a, b, t) && (n == a || n == b)
    ensures HalfSwapped(a, b, t, n).parent != null ==> HalfSwapped(a, b, t, n).parent in Nodes(t)
  {
    LinksAgree(t, null, Swapped(a, b, n));
  }

  /** Which nodes the fathers' repointing gives a new child. */
  lemma NewChild(a: Node, b: Node, t: Tree, n: Node)
    requires Swappable(a, b, t) && n in Nodes(t)
    ensures var (h, p1, p2) := (HalfSwapped(a, b, t, n), HalfSwapped(a, b, t, a).parent, HalfSwapped(a, b, t, b).parent);
            AfterSwap(a, b, t, n) ==
            if n == p1 then
              if h.left == b then h.(left := a) else if h.right == b then h.(right := a) else h
            else if n == p2 then
              if h.left == a then h.(left := b) else if h.right == a then h.(right := b) else h
            else h
  {
    LinksAgree(t, null, a);
    LinksAgree(t, null, b);
    LinksAgree(t, null, n);
  }

  lemma AboveApart(p: Path, t: Tree, d: int)
    requires !p.Top? && Apart(p, t)
    ensures Apart(p.up, Above(p, t, d)) && Nodes(Above(p, t, d)) == Nodes(Above(p, t, 0))
  {
  }

  lemma AboveField(p: Path, t: Tree, d: int, n: Node)
    requires !p.Top? && Apart(p, t) && n in Nodes(Above(p, t, 0)) + PathNodes(p.up)
    ensures n in Nodes(Above(p, t, d)) + PathNodes(p.up)
    ensures Field(p.up, Above(p, t, d), n) ==
            if n == p.node then Field(p.up, Above(p, t, 0), n).(bal := Above(p, t, d).bal)
            else Field(p.up, Above(p, t, 0), n)
  {
    AboveApart(p, t, d);
    AboveApart(p, t, 0);
  }

  lemma TopmostSame(p: Path, t: Tree, t': Tree)
    requires Ptr(t) == Ptr(t')
    ensures Topmost(p, t) == Topmost(p, t')
  {
    if !p.Top? { TopmostPath(p, t, t'); }
  }

  lemma {:induction false} TopmostPath(p: Path, t: Tree, t': Tree)
    requires !p.Top?
    ensures Topmost(p, t) == Topmost(p, t') && Topmost(p, t) in PathNodes(p)
  {
    if !p.up.Top? { TopmostPath(p.up, Above(p, t, 0), Above(p, t', 0)); }
  }

  /** The tree once its left child has been lifted, stored balances untouched. */
  ghost function LiftedLeft(t: Tree): Tree
    requires t.Fork? && t.left.Fork?
  {
    Fork(t.left.left, t.left.node, t.left.bal, Fork(t.left.right, t.node, t.bal, t.right))
  }

  ghost function LiftedRight(t: Tree): Tree
    requires t.Fork? && t.right.Fork?
  {
    Fork(Fork(t.left, t.node, t.bal, t.right.left), t.right.node, t.right.bal, t.right.right)
  }

  lemma OwnerField(p: Path, t: Tree)
    requires !p.Top? && Apart(p, t) && t.Fork?
    ensures Field(p, t, p.node) ==
            if p.InLeft? then Cell(t.node, Ptr(p.right), Owner(p.up), p.bal)
            else Cell(Ptr(p.left), t.node, Owner(p.up), p.bal)
    ensures Ptr(Sibling(p)) != t.node
  {
  }

  /** Storing new balances in the two top nodes changes nothing else. */
  lemma LeftDeepBalances(p: Path, a: Tree, x: Node, xb: int, xb': int, b: Tree, k: Node, kb: int, kb': int, c: Tree, n: Node)
    requires Apart(p, Fork(Fork(a, x, xb, b), k, kb, c))
    requires n in Nodes(Fork(Fork(a, x, xb, b), k, kb, c)) + PathNodes(p)
    ensures var t, t' := Fork(Fork(a, x, xb, b), k, kb, c), Fork(Fork(a, x, xb', b), k, kb', c);
            && Apart(p, t') && n in Nodes(t') + PathNodes(p)
            && Field(p, t', n) == if n == k then Field(p, t, n).(bal := kb')
                                  else if n == x then Field(p, t, n).(bal := xb')
                                  else Field(p, t, n)
  {
    var t, t' := Fork(Fork(a, x, xb, b), k, kb, c), Fork(Fork(a, x, xb', b), k, kb', c);
    assert Distinct(t.left) && Nodes(t.left) == Nodes(t'.left) && Distinct(t'.left);
    if n in Nodes(t) {
      LeftDeepField(a, x, xb, b, k, kb, c, Owner(p), n);
      LeftDeepField(a, x, xb', b, k, kb', c, Owner(p), n);
    }
  }

  lemma RightDeepBalances(p: Path, a: Tree, x: Node, xb: int, xb': int, b: Tree, k: Node, kb: int, kb': int, c: Tree, n: Node)
    requires Apart(p, Fork(a, x, xb, Fork(b, k, kb, c)))
    requires n in Nodes(Fork(a, x, xb, Fork(b, k, kb, c))) + PathNodes(p)
    ensures var t, t' := Fork(a, x, xb, Fork(b, k, kb, c)), Fork(a, x, xb', Fork(b, k, kb', c));
            && Apart(p, t') && n in Nodes(t') + PathNodes(p)
            && Field(p, t', n) == if n == k then Field(p, t, n).(bal := kb')
                                  else if n == x then Field(p, t, n).(bal := xb')
                                  else Field(p, t, n)
  {
    var t, t' := Fork(a, x, xb, Fork(b, k, kb, c)), Fork(a, x, xb', Fork(b, k, kb', c));
    assert Distinct(t.right) && Nodes(t.right) == Nodes(t'.right) && Distinct(t'.right);
    if n in Nodes(t) {
      RightDeepField(a, x, xb, b, k, kb, c, Owner(p), n);
      RightDeepField(a, x, xb', b, k, kb', c, Owner(p), n);
    }
  }
}

module AvlTree {
  import opened AvlShape
  import opened AvlLinks

  const AVL_MAX_HEIGHT := 32

  class Iterator {
    var current: Node?
    const stack: array<Node?>
    var stack_height: nat

    constructor ()
      ensures current == null && stack_height == 0 && stack.Length == AVL_MAX_HEIGHT && fresh(stack)
    {
      stack := new Node?[AVL_MAX_HEIGHT](_ => null);
      current, stack_height := null, 0;
    }

    ghost function Entries(): seq<Node?>
      requires stack_height <= stack.Length
      reads this, stack
    {
      stack[..stack_height]
    }
  }

  class AvlTree {
    /** Whether the double rotation at the root is done as intended, rotating the root,
        or as written, rotating the lifted child a second time. */
    const mended: bool
    var root: Node?
    var numElements: nat
    var dupes: bool
    ghost var shape: Tree

    ghost function Now(n: Node): Cell
      reads n
    {
      Cell(n.left, n.right, n.parent, n.balance)
    }

    /** The pointers spell the subtree `t` at the end of the path `p`. */
    ghost predicate Spells(p: Path, t: Tree)
      reads this, Nodes(t), PathNodes(p)
    {
      && Apart(p, t) && root == Topmost(p, t)
      && forall n {:trigger Now(n)} {:trigger Field(p, t, n)} | n in Nodes(t) + PathNodes(p) ::
           Now(n) == Field(p, t, n)
    }

    /** Lifts the left child above `kn`: the link half of a rotation to the right. */
    method LiftLeft(kn: Node, ghost p: Path, ghost t: Tree) returns (child: Node)
      requires Spells(p, t) && Ptr(t) == kn && t.left.Fork?
      modifies this`root, Nodes(t), if p.Top? then {} else {p.node}
      ensures Spells(p, LiftedLeft(t)) && child == t.left.node
    {
      ghost var r := LiftedLeft(t);
      LiftLeftApart(p, t);
      LiftLeftCells(p, t);
      assert Now(kn) == Field(p, t, kn) && Now(t.left.node) == Field(p, t, t.left.node);
      if !p.Top? { OwnerField(p, t); }
      if !p.Top? { TopmostPath(p, t, r); } else { assert Topmost(p, r) == Ptr(r); }
      hide Nodes, PathNodes, Distinct, PathDistinct, CellOf, PathCellOf, Field, Topmost;
      child := kn.left;
      RelinkLeft(kn, child, Nodes(t) + PathNodes(p));
      forall n <- Nodes(r) + PathNodes(p) ensures Now(n) == Field(p, r, n) {
        LiftLeftFields(p, t, n);
      }
    }

    /** The links around a lifted left child: those of `kn` and the child, of the subtree
        that changes sides, and of the father. */
    method RelinkLeft(kn: Node, child: Node, ghost s: set<Node>)
      requires kn.left == child != kn && child.right != child && child.right != kn
      requires kn.parent != kn && kn.parent != child && (kn.parent == null || kn.parent != child.right)
      modifies this`root, kn, child, child.right, kn.parent
      ensures root == if old(kn.parent) == null then child else old(root)
      ensures Now(kn) == old(Now(kn)).(left := old(child.right), parent := child)
      ensures Now(child) == old(Now(child)).(right := kn, parent := old(kn.parent))
      ensures forall n <- s | n != kn && n != child ::
                Now(n) == if n == old(child.right) then old(Now(n)).(parent := kn)
                          else if n == old(kn.parent) then
                            if old(n.left) == kn then old(Now(n)).(left := child) else old(Now(n)).(right := child)
                          else old(Now(n))
    {
      kn.left := child.right;
      if child.right != null { child.right.parent := kn; }
      child.right := kn;
      child.parent := kn.parent;
      kn.parent := child;
      if child.parent != null {
        if child.parent.left == kn { child.parent.left := child; }
        else { child.parent.right := child; }
      } else {
        root := child;
      }
    }

    /** Lifts the right child above `kn`: the link half of a rotation to the left. */
    method LiftRight(kn: Node, ghost p: Path, ghost t: Tree) returns (child: Node)
      requires Spells(p, t) && Ptr(t) == kn && t.right.Fork?
      modifies this`root, Nodes(t), if p.Top? then {} else {p.node}
      ensures Spells(p, LiftedRight(t)) && child == t.right.node
    {
      ghost var r := LiftedRight(t);
      LiftRightApart(p, t);
      LiftRightCells(p, t);
      assert Now(kn) == Field(p, t, kn) && Now(t.right.node) == Field(p, t, t.right.node);
      if !p.Top? { OwnerField(p, t); }
      if !p.Top? { TopmostPath(p, t, r); } else { assert Topmost(p, r) == Ptr(r); }
      hide Nodes, PathNodes, Distinct, PathDistinct, CellOf, PathCellOf, Field, Topmost;
      child := kn.right;
      RelinkRight(kn, child, Nodes(t) + PathNodes(p));
      forall n <- Nodes(r) + PathNodes(p) ensures Now(n) == Field(p, r, n) {
        LiftRightFields(p, t, n);
      }
    }

    /** The links around a lifted right child: those of `kn` and the child, of the subtree
        that changes sides, and of the father. */
    method RelinkRight(kn: Node, child: Node, ghost s: set<Node>)
      requires kn.right == child != kn && child.left != child && child.left != kn
      requires kn.parent != kn && kn.parent != child && (kn.parent == null || kn.parent != child.left)
      modifies this`root, kn, child, child.left, kn.parent
      ensures root == if old(kn.parent) == null then child else old(root)
      ensures Now(kn) == old(Now(kn)).(right := old(child.left), parent := child)
      ensures Now(child) == old(Now(child)).(left := kn, parent := old(kn.parent))
      ensures forall n <- s | n != kn && n != child ::
                Now(n) == if n == old(child.left) then old(Now(n)).(parent := kn)
                          else if n == old(kn.parent) then
                            if old(n.left) == kn then old(Now(n)).(left := child) else old(Now(n)).(right := child)
                          else old(Now(n))
    {
      kn.right := child.left;
      if child.left != null { child.left.parent := kn; }
      child.left := kn;
      child.parent := kn.parent;
      kn.parent := child;
      if child.parent != null {
        if child.parent.left == kn { child.parent.left := child; }
        else { child.parent.right := child; }
      } else {
        root := child;
      }
    }

    /** Stores the balances that the rotation table gives. */
    method StoreBalances(kn: Node, child: Node)
      requires kn != child
      modifies kn`balance, child`balance
      ensures (kn.balance, child.balance) == NewBalances(old(kn.balance), old(child.balance))
    {
      if kn.balance == -1 {
        if child.balance == 1 {
          child.balance, kn.balance := 2, 0;
          return;
        }
        if child.balance == -1 { kn.balance := 1; } else { kn.balance := 0; }
        child.balance := 1;
      } else if kn.balance == -2 {
        if child.balance == -1 {
          kn.balance, child.balance := 0, 0;
        } else if child.balance == 0 {
          kn.balance, child.balance := -1, 1;
        } else if child.balance == -2 {
          kn.balance, child.balance := 1, 0;
        }
      } else if kn.balance == 1 {
        if child.balance == -1 {
          child.balance, kn.balance := -2, 0;
          return;
        }
        if child.balance == 1 { kn.balance := -1; } else { kn.balance := 0; }
        child.balance := -1;
      } else if kn.balance == 2 {
        if child.balance == 1 {
          kn.balance, child.balance := 0, 0;
        } else if child.balance == 0 {
          kn.balance, child.balance := 1, -1;
        } else if child.balance == 2 {
          kn.balance, child.balance := -1, 0;
        }
      }
    }

    method TurnRight(kn: Node, ghost p: Path, ghost t: Tree) returns (child: Node)
      requires Spells(p, t) && Ptr(t) == kn && t.bal < 0 && t.left.Fork?
      modifies this`root, Nodes(t), if p.Top? then {} else {p.node}
      ensures Spells(p, AvlShape.Rotate(t)) && child == AvlShape.Rotate(t).node
    {
      ghost var r, u := AvlShape.Rotate(t), LiftedLeft(t);
      assert allocated(Nodes(t)) && allocated(PathNodes(p));
      child := LiftLeft(kn, p, t);
      assert Now(kn) == Field(p, u, kn) && Now(child) == Field(p, u, child);
      RightDeepField(u.left, child, u.bal, u.right.left, kn, t.bal, t.right, Owner(p), kn);
      StoreBalances(kn, child);
      TopmostSame(p, u, r);
      RightDeepBalances(p, u.left, child, u.bal, r.bal, u.right.left, kn, t.bal, r.right.bal, t.right, kn);
      forall n <- Nodes(u) + PathNodes(p) ensures Now(n) == Field(p, r, n) {
        RightDeepBalances(p, u.left, child, u.bal, r.bal, u.right.left, kn, t.bal, r.right.bal, t.right, n);
      }
    }

    method TurnLeft(kn: Node, ghost p: Path, ghost t: Tree) returns (child: Node)
      requires Spells(p, t) && Ptr(t) == kn && t.bal >= 0 && t.right.Fork?
      modifies this`root, Nodes(t), if p.Top? then {} else {p.node}
      ensures Spells(p, AvlShape.Rotate(t)) && child == AvlShape.Rotate(t).node
    {
      ghost var r, u := AvlShape.Rotate(t), LiftedRight(t);
      assert allocated(Nodes(t)) && allocated(PathNodes(p));
      child := LiftRight(kn, p, t);
      assert Now(kn) == Field(p, u, kn) && Now(child) == Field(p, u, child);
      LeftDeepField(t.left, kn, t.bal, u.left.right, child, u.bal, u.right, Owner(p), kn);
      StoreBalances(kn, child);
      TopmostSame(p, u, r);
      LeftDeepBalances(p, t.left, kn, t.bal, r.left.bal, u.left.right, child, u.bal, r.bal, u.right, kn);
      forall n <- Nodes(u) + PathNodes(p) ensures Now(n) == Field(p, r, n) {
        LeftDeepBalances(p, t.left, kn, t.bal, r.left.bal, u.left.right, child, u.bal, r.bal, u.right, n);
      }
    }

    method Rotate(kn: Node, ghost p: Path, ghost t: Tree) returns (child: Node)
      requires Spells(p, t) && Ptr(t) == kn && Lifted(t).Fork?
      modifies this`root, Nodes(t), if p.Top? then {} else {p.node}
      ensures Spells(p, AvlShape.Rotate(t)) && child == AvlShape.Rotate(t).node
    {
      assert Now(kn) == Field(p, t, kn);
      if kn.balance < 0 { child := TurnRight(kn, p, t); } else { child := TurnLeft(kn, p, t); }
    }

    lemma SpellsAbove(p: Path, t: Tree)
      requires !p.Top?
      ensures Spells(p, t) <==> Spells(p.up, Above(p, t, 0))
    {
      ApartAbove(p, t);
      if Apart(p, t) {
        forall n | n in Nodes(t) + PathNodes(p) ensures Field(p, t, n) == Field(p.up, Above(p, t, 0), n) {
          FieldAbove(p, t, n);
        }
      }
    }

    lemma {:induction false} SpellsPlug(p: Path, t: Tree)
      ensures Spells(p, t) <==> Spells(Top, Plug(p, t))
      decreases p
    {
      if !p.Top? {
        SpellsAbove(p, t);
        SpellsPlug(p.up, Above(p, t, 0));
      }
    }

    /** Moves the father's stored balance by `d` towards `node`. */
    method Lean(node: Node, d: int, ghost p: Path, ghost t: Tree)
      requires !p.Top? && Spells(p, t) && Ptr(t) == node
      modifies p.node`balance
      ensures Spells(p.up, Above(p, t, d)) && node.parent == p.node
    {
      assert Now(node) == Field(p, t, node);
      OwnerField(p, t);
      assert Now(p.node) == Field(p, t, p.node);
      SpellsAbove(p, t);
      if node.parent.left == node { node.parent.balance := node.parent.balance - d; }
      else { node.parent.balance := node.parent.balance + d; }
      AboveApart(p, t, d);
      TopmostSame(p.up, Above(p, t, 0), Above(p, t, d));
      forall n <- Nodes(Above(p, t, 0)) + PathNodes(p.up)
        ensures Now(n) == Field(p.up, Above(p, t, d), n)
      {
        AboveField(p, t, d, n);
      }
    }

    method RotateTwice(node: Node, ghost p: Path, ghost t: Tree) returns (child: Node)
      requires Spells(p, t) && Ptr(t) == node && Lifted(t).Fork? && Lifted(Lifted(t)).Fork?
      modifies this`root, Nodes(t), if p.Top? then {} else {p.node}
      ensures Spells(p, AvlShape.RotateTwice(t)) && child == AvlShape.RotateTwice(t).node
    {
      assert Now(node) == Field(p, t, node);
      if node.balance < 0 {
        ghost var q := InLeft(p, node, t.bal, t.right);
        SpellsAbove(q, t.left);
        child := Rotate(node.left, q, t.left);
        SpellsAbove(q, AvlShape.Rotate(t.left));
      } else {
        ghost var q := InRight(p, t.left, node, t.bal);
        SpellsAbove(q, t.right);
        child := Rotate(node.right, q, t.right);
        SpellsAbove(q, AvlShape.Rotate(t.right));
      }
      child := Rotate(node, p, if t.bal < 0 then t.(left := AvlShape.Rotate(t.left))
                                else t.(right := AvlShape.Rotate(t.right)));
    }

    /** What the code can read off a node it looks at. */
    lemma Reads(p: Path, t: Tree)
      requires Spells(p, t) && t.Fork?
      ensures Now(t.node) == Cell(Ptr(t.left), Ptr(t.right), Owner(p), t.bal)
      ensures t.left.Fork? ==> t.left.node.balance == t.left.bal
      ensures t.right.Fork? ==> t.right.node.balance == t.right.bal
      ensures t.node == root <==> p.Top?
    {
      assert Now(t.node) == Field(p, t, t.node);
      ChildBalances(p, t);
      if !p.Top? { TopmostPath(p, t, t); }
    }

    /** The rotation of an inserting walk at a node of balance 2 or -2. */
    method Untilt(node: Node, ghost p: Path, ghost t: Tree)
      requires Spells(p, t) && Ptr(t) == node && NearlyAvl(t) && Tilted(t)
      modifies this`root, Nodes(t), if p.Top? then {} else {p.node}
      ensures Spells(p, AvlShape.Untilt(t))
    {
      Reads(p, t);
      TiltedHasChild(t);
      if node.balance == -2 {
        if node.left.balance == -1 {
          var _ := Rotate(node, p, t);
        } else {
          var _ := RotateTwice(node, p, t);
        }
      } else {
        if node.right.balance == 1 {
          var _ := Rotate(node, p, t);
        } else {
          var _ := RotateTwice(node, p, t);
        }
      }
    }

    method UpInsert(node: Node, ghost p: Path, ghost t: Tree)
      requires Spells(p, t) && Ptr(t) == node && Grown(p, t)
      modifies this`root, Nodes(t), PathNodes(p)
      ensures Spells(Top, AvlShape.UpInsert(p, t))
      decreases p
    {
      Reads(p, t);
      if (node.balance == -1 || node.balance == 1) && node != root {
        GrownStep(p, t);
        Lean(node, 1, p, t);
        UpInsert(node.parent, p.up, Above(p, t, 1));
        return;
      }
      if node.balance == -2 || node.balance == 2 {
        Untilt(node, p, t);
        SpellsPlug(p, AvlShape.Untilt(t));
      } else {
        SpellsPlug(p, t);
      }
    }

    /** The three-way switch of the deleting walk at a node of balance 2 or -2. */
    method Settle(node: Node, ghost p: Path, ghost t: Tree)
      requires Spells(p, t) && Ptr(t) == node && Shrunk(p, t) && Tilted(t)
      modifies this`root, Nodes(t), PathNodes(p)
      ensures Spells(Top, AvlShape.Settle(mended, p, t))
      decreases p, Abs(t.bal), 0
    {
      Reads(p, t);
      hide Height, Avl, PathAvl, AvlShape.Rotate, AvlShape.RotateTwice, AvlShape.Settle;
      hide AvlShape.UpDelete, Plug;
      SettleCases(mended, p, t);
      RotateNodes(t);
      if LeansInward(t) { RotateTwiceNodes(t); }
      var child: Node;
      var heavy := if node.balance == 2 then node.right else node.left;
      if heavy.balance == 0 {
        child := Rotate(node, p, t);
        SpellsPlug(p, AvlShape.Rotate(t));
      } else if heavy.balance * 2 == node.balance {
        child := Rotate(node, p, t);
        UpDelete(child, p, AvlShape.Rotate(t));
      } else {
        child := RotateTwice(node, p, t);
        UpDelete(child, p, AvlShape.RotateTwice(t));
      }
    }

    method UpDelete(node: Node, ghost p: Path, ghost t: Tree)
      requires Spells(p, t) && Ptr(t) == node && Shrunk(p, t)
      modifies this`root, Nodes(t), PathNodes(p)
      ensures Spells(Top, AvlShape.UpDelete(mended, p, t))
      decreases p, Abs(t.bal), 1
    {
      Reads(p, t);
      var parent := node.parent;
      if node.balance == -1 || node.balance == 1 {
        SpellsPlug(p, t);
        return;
      }
      if node == root && node.balance == 0 { return; }
      if node == root {
        UpDeleteRoot(node, t);
        return;
      }
      if node.balance == 2 || node.balance == -2 {
        Settle(node, p, t);
        return;
      }
      ShrunkStep(p, t);
      Lean(node, -1, p, t);
      Reads(p.up, Above(p, t, -1));
      if -2 < parent.balance < 2 {
        UpDelete(parent, p.up, Above(p, t, -1));
      } else {
        Settle(parent, p.up, Above(p, t, -1));
      }
    }

    /** The branch for the root itself. As written, when a double rotation is called
        for, the second rotation is applied to the lifted child. */
    method UpDeleteRoot(node: Node, ghost t: Tree)
      requires Spells(Top, t) && Ptr(t) == node && Shrunk(Top, t) && Tilted(t)
      modifies this`root, Nodes(t)
      ensures Spells(Top, AvlShape.UpDelete(mended, Top, t))
    {
      Reads(Top, t);
      UpDeleteAtRoot(mended, t);
      if (if node.balance == -2 then node.left.balance <= 0 else node.right.balance >= 0) {
        var _ := Rotate(node, Top, t);
      } else if mended {
        var _ := RotateTwice(node, Top, t);
      } else {
        RotateChild(node, t);
      }
    }

    /** The statement pair as it stands. */
    method RotateChild(node: Node, ghost t: Tree)
      requires Spells(Top, t) && Ptr(t) == node && Shrunk(Top, t) && RootStuck(Top, t)
      modifies this`root, Nodes(t)
      ensures Spells(Top, t)
    {
      Reads(Top, t);
      RotateChildTwiceUndoes(t);
      if node.balance == -2 {
        ghost var q := InLeft(Top, node, t.bal, t.right);
        SpellsAbove(q, t.left);
        var child := Rotate(node.left, q, t.left);
        var _ := Rotate(child, q, AvlShape.Rotate(t.left));
        SpellsAbove(q, AvlShape.Rotate(AvlShape.Rotate(t.left)));
      } else {
        ghost var q := InRight(Top, t.left, node, t.bal);
        SpellsAbove(q, t.right);
        var child := Rotate(node.right, q, t.right);
        var _ := Rotate(child, q, AvlShape.Rotate(t.right));
        SpellsAbove(q, AvlShape.Rotate(AvlShape.Rotate(t.right)));
      }
    }

    // ---------------------------------------------------------- operations

    /** The links are consistent, the order is right and the count is exact. */
    ghost predicate Valid()
      reads this, Nodes(shape)
    {
      && Spells(Top, shape)
      && Sorted(InOrder(shape))
      && numElements == |InOrder(shape)|
    }

    ghost predicate Balanced()
      reads this
    {
      Avl(shape)
    }

    constructor (mended: bool)
      ensures Valid() && Balanced() && shape == Nil && !dupes && this.mended == mended
    {
      this.mended := mended;
      root, numElements, dupes := null, 0, false;
      shape := Nil;
    }

    method AllowDupes(allow: bool)
      modifies this`dupes
      ensures dupes == allow
    {
      dupes := allow;
    }

    method Clear()
      modifies this`root, this`numElements, this`shape
      ensures Valid() && Balanced() && shape == Nil
    {
      root, numElements := null, 0;
      shape := Nil;
    }

    /** 1 if the second node's key is greater, -1 if it is smaller. */
    static function Compare(value1: Node, value2: Node): int {
      if value1.key < value2.key then 1 else if value1.key > value2.key then -1 else 0
    }

    /** Hangs a new leaf below `node`, on the side `cmp` asks for. */
    method Attach(item: Node, node: Node, cmp: int, ghost p: Path)
      requires !p.Top? && Spells(p, Nil) && p.node == node && item !in PathNodes(p)
      requires p.InRight? <==> cmp > 0
      requires item.left == null && item.right == null && item.balance == 0
      modifies item, node
      ensures Spells(p, Fork(Nil, item, 0, Nil))
    {
      ghost var leaf := Fork(Nil, item, 0, Nil);
      item.parent := node;
      if cmp > 0 { node.right := item; } else { node.left := item; }
      TopmostPath(p, Nil, leaf);
      forall n <- Nodes(leaf) + PathNodes(p) ensures Now(n) == Field(p, leaf, n) {
        if n in PathNodes(p) {
          assert Field(p, Nil, n) == PathCellOf(p, null, n);
          PathCellHole(p, null, item, n);
        }
      }
    }

    /** The first half of a swap: the two nodes exchange their fields, and a link
        that would now point to its own node points to the other one. */
    method ExchangeFields(item1: Node, item2: Node)
      requires item1 != item2
      modifies item1, item2
      ensures Now(item1) == Unselfed(item1, item2, old(Now(item2)))
      ensures Now(item2) == Unselfed(item2, item1, old(Now(item1)))
    {
      var left, right, balance, parent := item1.left, item1.right, item1.balance, item1.parent;
      item1.left, item1.right := item2.left, item2.right;
      item1.balance, item1.parent := item2.balance, item2.parent;
      item2.left, item2.right, item2.balance, item2.parent := left, right, balance, parent;
      if item1.left == item1 { item1.left := item2; }
      if item1.right == item1 { item1.right := item2; }
      if item2.left == item2 { item2.left := item1; }
      if item2.right == item2 { item2.right := item1; }
    }

    /** The children of a node take it for their father. */
    method AdoptChildren(item: Node, ghost s: set<Node>)
      requires item.left != null ==> item.left in s
      requires item.right != null ==> item.right in s
      modifies s
      ensures forall n <- s :: Now(n) == old(Now(n)).(parent :=
                if n == old(item.left) || n == old(item.right) then item else old(n.parent))
    {
      if item.left != null { item.left.parent := item; }
      if item.right != null { item.right.parent := item; }
    }

    /** The second part of a swap: the children follow their new fathers. */
    method RepointChildren(item1: Node, item2: Node, ghost t: Tree)
      requires Swappable(item1, item2, t)
      requires Now(item1) == CellOf(t, null, item2)
      requires Now(item2) == Unselfed(item2, item1, CellOf(t, null, item1))
      requires forall n <- Nodes(t) | n != item1 && n != item2 :: Now(n) == CellOf(t, null, n)
      modifies Nodes(t)
      ensures forall n <- Nodes(t) :: Now(n) == HalfSwapped(item1, item2, t, n)
    {
      hide CellOf, HalfSwapped, Unselfed, Nodes, Swappable;
      SwapWithin(item1, item2, t);
      assert allocated(Nodes(t));
      AdoptChildren(item1, Nodes(t));
      AdoptChildren(item2, Nodes(t));
      forall n <- Nodes(t) ensures Now(n) == HalfSwapped(item1, item2, t, n) {
        NewParent(item1, item2, t, n);
      }
    }

    /** The last part of a swap: the fathers point to the node that moved in. */
    method RepointFathers(item1: Node, item2: Node, ghost t: Tree)
      requires Swappable(item1, item2, t)
      requires forall n <- Nodes(t) :: Now(n) == HalfSwapped(item1, item2, t, n)
      modifies Nodes(t)
      ensures forall n <- Nodes(t) :: Now(n) == AfterSwap(item1, item2, t, n)
    {
      NewParentInTree(item1, item2, t, item1);
      NewParentInTree(item1, item2, t, item2);
      if item1.parent != null {
        if item1.parent.left == item2 { item1.parent.left := item1; }
        else if item1.parent.right == item2 { item1.parent.right := item1; }
      }
      if item2.parent != null {
        if item2.parent.left == item1 { item2.parent.left := item2; }
        else if item2.parent.right == item1 { item2.parent.right := item2; }
      }
      forall n <- Nodes(t) ensures Now(n) == AfterSwap(item1, item2, t, n) {
        NewChild(item1, item2, t, n);
      }
    }

    /** Exchanges the places of two nodes, which may be father and child. */
    method SwapNodes(item1: Node, item2: Node, ghost t: Tree)
      requires Spells(Top, t) && Swappable(item1, item2, t)
      modifies Nodes(t)
      ensures forall n <- Nodes(t) :: Now(n) == AfterSwap(item1, item2, t, n)
    {
      assert allocated(Nodes(t));
      SwapWithin(item1, item2, t);
      assert forall n <- Nodes(t) :: Now(n) == Field(Top, t, n) == CellOf(t, null, n);
      hide CellOf, HalfSwapped, AfterSwap, Unselfed, Nodes, PathNodes, Swappable;
      ExchangeFields(item1, item2);
      RepointChildren(item1, item2, t);
      RepointFathers(item1, item2, t);
    }

    /** Replaces a node by its only son (or nothing) in its father. */
    method Bypass(item: Node, father: Node, son: Node?, ghost p: Path, ghost t: Tree)
      requires !p.Top? && Spells(p, t) && Ptr(t) == item && (t.left.Nil? || t.right.Nil?)
      requires father == p.node && son == Ptr(Son(t))
      modifies father, son
      ensures Spells(p.up, Above(p, Son(t), -1))
    {
      OwnerField(p, t);
      assert Now(father) == Field(p, t, father);
      if son != null { son.parent := father; }
      if father.left == item {
        father.left := son;
        father.balance := father.balance + 1;
      } else {
        father.right := son;
        father.balance := father.balance - 1;
      }
      ghost var f := Above(p, Son(t), -1);
      UnlinkedApart(p, t);
      forall n <- Nodes(f) + PathNodes(p.up) ensures Now(n) == Field(p.up, f, n) {
        UnlinkedField(p, t, n);
      }
    }

    /** Takes a node with at most one child out of the tree. */
    method Unlink(item: Node, ghost p: Path, ghost t: Tree)
      requires Spells(p, t) && Ptr(t) == item && (t.left.Nil? || t.right.Nil?)
      requires Avl(t) && PathAvl(p, Height(t))
      modifies this`root, Nodes(t), PathNodes(p)
      ensures Spells(Top, AvlShape.Unlink(mended, p, t))
    {
      Reads(p, t);
      SonLower(t);
      hide Avl, Height, PathAvl, AvlShape.UpDelete;
      var father := item.parent;
      var son := if item.left != null then item.left else item.right;
      if item == root {
        root := son;
        if son != null { son.parent := null; }
        assert Apart(Top, Son(t));
        forall n <- Nodes(Son(t)) ensures Now(n) == Field(Top, Son(t), n) {
          UnlinkedRootField(t, n);
        }
      } else {
        ShrunkStep(p, Son(t));
        UnlinkedApart(p, t);
        Bypass(item, father, son, p, t);
        UpDelete(father, p.up, Above(p, Son(t), -1));
      }
    }

    /** Finds the nearest node on the side that is not lower and swaps places with it. */
    method SwapWithSubstitute(item: Node, ghost p: Path, ghost t: Tree)
      requires Spells(p, t) && Ptr(t) == item && t.left.Fork? && t.right.Fork?
      modifies this`root, Nodes(t), PathNodes(p)
      ensures Spells(SwapSpot(p, t).0, SwapSpot(p, t).1)
    {
      Reads(p, t);
      var sys := FindSubstitute(item, p, t);
      SwapSpotSwapped(p, t);
      SpellsPlug(p, t);
      PlugNodes(p, t);
      ghost var whole := Plug(p, t);
      SwapNodes(item, sys, whole);
      if !p.Top? { TopmostPath(p, t, t); }
      if item == root { root := sys; }
      SpellsSwapped(item, sys, whole);
      SpellsPlug(SwapSpot(p, t).0, SwapSpot(p, t).1);
    }

    lemma SpellsSwapped(a: Node, b: Node, t: Tree)
      requires Distinct(t) && a in Nodes(t) && b in Nodes(t)
      requires forall n <- Nodes(t) :: Now(n) == AfterSwap(a, b, t, n)
      requires root == Swapped(a, b, Ptr(t))
      ensures Spells(Top, SwapTree(a, b, t))
    {
      SwapTreeNodes(a, b, t);
      forall n <- Nodes(SwapTree(a, b, t)) ensures Now(n) == Field(Top, SwapTree(a, b, t), n) {
        SwapCellOf(a, b, t, null, Swapped(a, b, n));
      }
    }

    method FindSubstitute(item: Node, ghost p: Path, ghost t: Tree) returns (sys: Node)
      requires Spells(p, t) && Ptr(t) == item && t.left.Fork? && t.right.Fork?
      ensures sys == Substitute(t)
      ensures Spells(p, t)
    {
      Reads(p, t);
      ghost var q, u := Beneath(p, t, item), if t.bal < 0 then t.left else t.right;
      ExtremeTree(q, Top, u, t.bal < 0);
      SpellsAbove(q, u);
      if item.balance < 0 {
        sys := item.left;
        Reads(q, u);
        while sys.right != null
          invariant Spells(p, t) && Spells(q, u) && Ptr(u) == sys
          invariant Now(sys).right == Ptr(u.right)
          invariant Extreme(q, u, true) == Extreme(Beneath(p, t, item), t.left, true)
          decreases u
        {
          sys := sys.right;
          q, u := InRight(q, u.left, u.node, u.bal), u.right;
          SpellsAbove(q, u);
          Reads(q, u);
        }
      } else {
        sys := item.right;
        Reads(q, u);
        while sys.left != null
          invariant Spells(p, t) && Spells(q, u) && Ptr(u) == sys
          invariant Now(sys).left == Ptr(u.left)
          invariant Extreme(q, u, false) == Extreme(Beneath(p, t, item), t.right, false)
          decreases u
        {
          sys := sys.left;
          q, u := InLeft(q, u.node, u.bal, u.right), u.left;
          SpellsAbove(q, u);
          Reads(q, u);
        }
      }
    }

    /** The guard of the double rotation at the root that is written differently:
        `item` hangs directly under the root and has at most one child, the root
        leans away from it, and its sibling leans inwards. */
    predicate LeavesRootTilted(item: Node)
      reads this, item, root, if root == null then {} else {root.left, root.right}
    {
      && root != null && item.parent == root && (item.left == null || item.right == null)
      && if root.left == item then
           root.balance == 1 && root.right != null && root.right.balance == -1
         else
           root.balance == -1 && root.left != null && root.left.balance == 1
    }

    method EraseNode(item: Node?) returns (r: EraseResult)
      requires Valid() && Balanced()
      requires item != null ==> item in Nodes(shape)
      modifies this, Nodes(shape)
      ensures Valid() && dupes == old(dupes)
      ensures r == NullPointer <==> item == null
      ensures r == NullPointer ==> shape == old(shape)
      ensures r == Erased ==> InOrder(shape) == Without(old(InOrder(shape)), item)
      ensures Balanced() <==> mended || !(item != null && old(LeavesRootTilted(item)))
      ensures Balanced() || NearlyAvl(shape)
    {
      if item == null { return NullPointer; }
      hide *;
      ghost var (p, t) := Locate(Top, shape, item);
      Focus(p, t);
      EraseAt(item, p, t);
      return Erased;
    }

    /** What holds at the place of a node of a valid, balanced tree. */
    lemma Focus(p: Path, t: Tree)
      requires Valid() && Balanced() && Plug(p, t) == shape && t.Fork?
      ensures Spells(p, t) && Avl(t) && PathAvl(p, Height(t)) && Nodes(t) + PathNodes(p) == Nodes(shape)
      ensures LeavesRootTilted(t.node) <==> EraseStuck(p, t)
    {
      SpellsPlug(p, t);
      PlugAvl(p, t);
      PlugNodes(p, t);
      GuardIsStuck(p, t);
    }

    method EraseAt(item: Node, ghost p: Path, ghost t: Tree)
      requires Valid() && Plug(p, t) == shape && Ptr(t) == item
      requires Spells(p, t) && Avl(t) && PathAvl(p, Height(t)) && Nodes(t) + PathNodes(p) == Nodes(shape)
      modifies this`root, this`numElements, this`shape, Nodes(shape)
      ensures Valid() && shape == AvlShape.Erase(mended, p, t)
      ensures InOrder(shape) == Without(old(InOrder(shape)), item)
      ensures Balanced() <==> mended || !EraseStuck(p, t)
      ensures Balanced() || NearlyAvl(shape)
    {
      hide Height, Avl, PathAvl, InOrder, Plug, Without, EraseStuck, Sorted, AvlShape.Erase;
      ErasedTree(mended, p, t);
      numElements := numElements - 1;
      Relink(item, p, t);
      Record(AvlShape.Erase(mended, p, t));
    }

    /** The pointer work of an erase. */
    method Relink(item: Node, ghost p: Path, ghost t: Tree)
      requires Spells(p, t) && Ptr(t) == item && Avl(t) && PathAvl(p, Height(t))
      modifies this`root, Nodes(t), PathNodes(p)
      ensures Spells(Top, AvlShape.Erase(mended, p, t))
    {
      hide Height, Avl, PathAvl, Plug, SwapSpot, AvlShape.Unlink;
      Reads(p, t);
      SwapSpotAvl(p, t);
      SwapSpotNodes(p, t);
      ghost var (q, u) := SwapSpot(p, t);
      if item.left != null && item.right != null {
        SwapWithSubstitute(item, p, t);
      }
      Unlink(item, q, u);
    }

    lemma GuardIsStuck(p: Path, t: Tree)
      requires Spells(p, t) && t.Fork? && Avl(t)
      ensures LeavesRootTilted(t.node) <==> EraseStuck(p, t)
    {
      Reads(p, t);
      if !p.Top? {
        SpellsAbove(p, t);
        Reads(p.up, Above(p, t, 0));
        OwnerField(p, t);
      }
    }

    /** Walks down to the empty place where `item` belongs, or meets an equal key. */
    method FindSlot(item: Node) returns (node: Node?, cmp: int, duplicate: bool, ghost p: Path)
      requires Valid() && root != null
      ensures Valid()
      ensures duplicate <==> !dupes && exists n <- InOrder(shape) :: n.key == item.key
      ensures !duplicate ==>
                && Plug(p, Nil) == shape && !p.Top? && node == p.node && (p.InRight? <==> cmp > 0)
                && Slot(p, item.key, !dupes)
    {
      var cur := root;
      node, cmp, p := null, 0, Top;
      ghost var t := shape;
      while cur != null
        invariant Valid() && Plug(p, t) == shape && Ptr(t) == cur && node == Owner(p)
        invariant !p.Top? ==> (p.InRight? <==> cmp > 0)
        invariant p.Top? ==> cur != null
        invariant Slot(p, item.key, !dupes)
        decreases t
      {
        SpellsPlug(p, t);
        Reads(p, t);
        node := cur;
        cmp := Compare(cur, item);
        if cmp == 0 && !dupes {
          PlugInOrder(p, t);
          assert node in InOrder(shape);
          duplicate := true;
          return;
        } else if cmp <= 0 {
          SlotLeft(p, t, item.key, !dupes);
          cur := cur.left;
          p, t := InLeft(p, t.node, t.bal, t.right), t.left;
        } else {
          SlotRight(p, t, item.key, !dupes);
          cur := cur.right;
          p, t := InRight(p, t.left, t.node, t.bal), t.right;
        }
      }
      PlugInOrder(p, Nil);
      duplicate := false;
    }

    // ----------------------------------------------------------- iterators

    /** The iterator stands on a node of the tree, with exactly its ancestors on
        the stack, or on none. */
    ghost predicate Synced(it: Iterator)
      reads this, it, it.stack
    {
      && it.stack.Length == AVL_MAX_HEIGHT && it.stack_height <= AVL_MAX_HEIGHT
      && (it.current != null ==> it.current in Nodes(shape)
                                 && it.Entries() == Ancestors(Locate(Top, shape, it.current).0))
    }

    /** Trees this small cannot overflow an iterator's stack. */
    ghost predicate Walkable()
      reads this, Nodes(shape)
    {
      Valid() && Height(shape) <= AVL_MAX_HEIGHT + 1
    }

    method Reset(it: Iterator)
      requires it.stack.Length == AVL_MAX_HEIGHT
      modifies it
      ensures it.current == null && it.stack_height == 0 && Synced(it)
    {
      it.current := null;
      it.stack_height := 0;
    }

    lemma Look(p: Path, t: Tree)
      requires Valid() && Plug(p, t) == shape && t.Fork?
      ensures Now(t.node) == Cell(Ptr(t.left), Ptr(t.right), Owner(p), t.bal)
    {
      SpellsPlug(p, t);
      Reads(p, t);
    }

    method Push(it: Iterator, node: Node)
      requires Walkable() && it.stack_height < it.stack.Length
      modifies it`stack_height, it.stack
      ensures Walkable()
      ensures it.stack_height == old(it.stack_height) + 1
      ensures it.Entries() == old(it.Entries()) + [node]
    {
      it.stack[it.stack_height] := node;
      it.stack_height := it.stack_height + 1;
    }

    /** The iterator's stack holds the ancestors of the place `p`, `t`. */
    ghost predicate Stacked(it: Iterator, p: Path, t: Tree)
      reads this, it, it.stack
    {
      && it.stack.Length == AVL_MAX_HEIGHT && it.stack_height <= AVL_MAX_HEIGHT
      && Plug(p, t) == shape && it.Entries() == Ancestors(p)
    }

    /** The loops that follow left (or right) links to the end. */
    method Descend(it: Iterator, start: Node, rightmost: bool, ghost p: Path, ghost t: Tree)
      returns (node: Node, ghost q: Path, ghost u: Tree)
      requires Walkable() && Stacked(it, p, t) && Ptr(t) == start
      modifies it`stack_height, it.stack
      ensures Walkable() && Stacked(it, q, u) && Ptr(u) == node
      ensures (q, u) == Extreme(p, t, rightmost)
    {
      hide Plug, InOrder, Height, Sorted, Spells;
      node, q, u := start, p, t;
      Look(q, u);
      while (if rightmost then node.right else node.left) != null
        invariant Walkable() && Stacked(it, q, u) && Ptr(u) == node
        invariant Now(node) == Cell(Ptr(u.left), Ptr(u.right), Owner(q), u.bal)
        invariant Extreme(q, u, rightmost) == Extreme(p, t, rightmost)
        decreases u
      {
        Depth(q, u);
        HeightFork(u);
        HeightZero(u.left);
        HeightZero(u.right);
        Push(it, node);
        if rightmost {
          node, q, u := node.right, InRight(q, u.left, u.node, u.bal), u.right;
        } else {
          node, q, u := node.left, InLeft(q, u.node, u.bal, u.right), u.left;
        }
        PlugStep(q, u);
        Look(q, u);
      }
    }

    method GetFirst(it: Iterator) returns (r: Node?)
      requires Walkable() && it.stack.Length == AVL_MAX_HEIGHT
      modifies it, it.stack
      ensures Walkable() && Synced(it) && r == it.current
      ensures r == if InOrder(shape) == [] then null else InOrder(shape)[0]
    {
      ClearIterator(it);
      if root != null {
        ghost var q, u;
        r, q, u := Descend(it, root, false, Top, shape);
        LeftmostInOrder(Top, shape);
        FirstNode(q, u);
        SetCurrent(it, r, q, u);
      } else {
        r := null;
      }
    }

    method GetLast(it: Iterator) returns (r: Node?)
      requires Walkable() && it.stack.Length == AVL_MAX_HEIGHT
      modifies it, it.stack
      ensures Walkable() && Synced(it) && r == it.current
      ensures r == if InOrder(shape) == [] then null else InOrder(shape)[|InOrder(shape)| - 1]
    {
      ClearIterator(it);
      if root != null {
        ghost var q, u;
        r, q, u := Descend(it, root, true, Top, shape);
        RightmostInOrder(Top, shape);
        LastNode(q, u);
        SetCurrent(it, r, q, u);
      } else {
        r := null;
      }
    }

    /** The iterator stands at position `i` of the sorted sequence. */
    ghost predicate StandsAt(it: Iterator, i: nat)
      reads this, it
    {
      i < |InOrder(shape)| && InOrder(shape)[i] == it.current
    }

    method GetNext(it: Iterator, ghost i: nat) returns (r: Node?)
      requires Walkable() && Synced(it) && (it.current != null ==> StandsAt(it, i))
      modifies it, it.stack
      ensures Walkable() && Synced(it) && r == it.current
      ensures old(it.current) == null ==> r == if InOrder(shape) == [] then null else InOrder(shape)[0]
      ensures old(it.current) != null ==>
                r == if i + 1 < |InOrder(shape)| then InOrder(shape)[i + 1] else null
    {
      if it.current == null {
        r := GetFirst(it);
        return;
      }
      var node := it.current;
      ghost var (p, t) := Locate(Top, shape, node);
      FocusIterator(it, p, t);
      RankUnique(p, t, i);
      if node.right != null {
        r := NextBelow(it, node, p, t);
      } else {
        r := NextAbove(it, node, p, t);
      }
    }

    lemma FocusIterator(it: Iterator, p: Path, t: Tree)
      requires Valid() && Synced(it) && it.current != null && (p, t) == Locate(Top, shape, it.current)
      ensures Stacked(it, p, t) && Apart(p, t)
      ensures Now(t.node) == Cell(Ptr(t.left), Ptr(t.right), Owner(p), t.bal)
    {
      PlugNodes(p, t);
      Look(p, t);
    }

    /** The successor is the leftmost node of the right subtree. */
    method NextBelow(it: Iterator, node: Node, ghost p: Path, ghost t: Tree) returns (r: Node?)
      requires Walkable() && Stacked(it, p, t) && Ptr(t) == node && t.right.Fork?
      requires node.right == Ptr(t.right)
      modifies it, it.stack
      ensures Walkable() && Synced(it) && r == it.current
      ensures Rank(p, t) + 1 < |InOrder(shape)| && r == InOrder(shape)[Rank(p, t) + 1]
    {
      ghost var q, u := InRight(p, t.left, t.node, t.bal), t.right;
      Depth(p, t);
      HeightFork(t);
      HeightZero(t.right);
      RankBelow(p, t);
      hide Sorted, Spells, InOrder, Rank, Before, After, Height, Extreme;
      Push(it, node);
      r, q, u := Descend(it, node.right, false, q, u);
      RankOf(q, u);
      SetCurrent(it, r, q, u);
    }

    method Pop(it: Iterator, ghost q: Path, ghost u: Tree) returns (node: Node)
      requires Walkable() && Stacked(it, q, u) && u.Fork? && it.stack_height > 0
      modifies it`stack_height
      ensures Walkable() && !q.Top? && Stacked(it, q.up, Above(q, u, 0)) && node == q.node
      ensures node.right == u.node <==> q.InRight?
      ensures node.left == u.node <==> q.InLeft?
    {
      AncestorsUp(q);
      PlugStep(q, u);
      PlugNodes(q, u);
      OwnerField(q, u);
      Look(q.up, Above(q, u, 0));
      assert it.Entries()[it.stack_height - 1] == q.node;
      it.stack_height := it.stack_height - 1;
      node := it.stack[it.stack_height];
    }

    /** Leaves the tree behind its last (or before its first) node. */
    method Finish(it: Iterator)
      requires Walkable() && it.stack.Length == AVL_MAX_HEIGHT && it.stack_height <= AVL_MAX_HEIGHT
      modifies it`current
      ensures Walkable() && Synced(it) && it.current == null
    {
      it.current := null;
    }

    /** The successor is the nearest ancestor that was left to the left. */
    method NextAbove(it: Iterator, start: Node, ghost p: Path, ghost t: Tree) returns (r: Node?)
      requires Walkable() && Stacked(it, p, t) && Ptr(t) == start && t.right.Nil?
      modifies it, it.stack
      ensures Walkable() && Synced(it) && r == it.current
      ensures r == if Rank(p, t) + 1 < |InOrder(shape)| then InOrder(shape)[Rank(p, t) + 1] else null
    {
      hide Plug, Height, Sorted, Spells;
      var node, tmp := start, start;
      ghost var q, u := p, t;
      LastBelow(p, t);
      while true
        invariant Walkable() && Stacked(it, q, u) && Ptr(u) == node
        invariant |Before(q)| + |InOrder(u)| == Rank(p, t) + 1
        decreases q
      {
        if it.stack_height == 0 {
          AncestorsTop(q, u);
          Finish(it);
          return null;
        }
        tmp := node;
        node := Pop(it, q, u);
        RankAbove(q, u);
        q, u := q.up, Above(q, u, 0);
        if tmp != node.right { break; }
      }
      RankOf(q, u);
      SetCurrent(it, node, q, u);
      r := node;
    }

    method GetPrevious(it: Iterator, ghost i: nat) returns (r: Node?)
      requires Walkable() && Synced(it) && (it.current != null ==> StandsAt(it, i))
      modifies it, it.stack
      ensures Walkable() && Synced(it) && r == it.current
      ensures old(it.current) == null ==>
                r == if InOrder(shape) == [] then null else InOrder(shape)[|InOrder(shape)| - 1]
      ensures old(it.current) != null ==> r == if i > 0 then InOrder(shape)[i - 1] else null
    {
      if it.current == null {
        r := GetLast(it);
        return;
      }
      var node := it.current;
      ghost var (p, t) := Locate(Top, shape, node);
      FocusIterator(it, p, t);
      RankUnique(p, t, i);
      if node.left != null {
        r := PreviousBelow(it, node, p, t);
      } else {
        r := PreviousAbove(it, node, p, t);
      }
    }

    /** The predecessor is the rightmost node of the left subtree. */
    method PreviousBelow(it: Iterator, node: Node, ghost p: Path, ghost t: Tree) returns (r: Node?)
      requires Walkable() && Stacked(it, p, t) && Ptr(t) == node && t.left.Fork?
      requires node.left == Ptr(t.left)
      modifies it, it.stack
      ensures Walkable() && Synced(it) && r == it.current
      ensures 0 < Rank(p, t) <= |InOrder(shape)| && r == InOrder(shape)[Rank(p, t) - 1]
    {
      ghost var q, u := InLeft(p, t.node, t.bal, t.right), t.left;
      Depth(p, t);
      HeightFork(t);
      HeightZero(t.left);
      RankBelow(p, t);
      hide Sorted, Spells, InOrder, Rank, Before, After, Height, Extreme;
      Push(it, node);
      r, q, u := Descend(it, node.left, true, q, u);
      RankOf(q, u);
      SetCurrent(it, r, q, u);
    }

    /** The predecessor is the nearest ancestor that was left to the right. */
    method PreviousAbove(it: Iterator, start: Node, ghost p: Path, ghost t: Tree) returns (r: Node?)
      requires Walkable() && Stacked(it, p, t) && Ptr(t) == start && t.left.Nil?
      modifies it, it.stack
      ensures Walkable() && Synced(it) && r == it.current
      ensures Rank(p, t) <= |InOrder(shape)|
      ensures r == if Rank(p, t) > 0 then InOrder(shape)[Rank(p, t) - 1] else null
    {
      hide Plug, Height, Sorted, Spells;
      var node, y := start, start;
      ghost var q, u := p, t;
      RankOf(p, t);
      InOrderNil(t);
      while true
        invariant Walkable() && Stacked(it, q, u) && Ptr(u) == node
        invariant |Before(q)| == Rank(p, t)
        decreases q
      {
        if it.stack_height == 0 {
          Finish(it);
          return null;
        }
        y := node;
        node := Pop(it, q, u);
        RankAbove(q, u);
        q, u := q.up, Above(q, u, 0);
        if y != node.left { break; }
      }
      RankOf(q, u);
      SetCurrent(it, node, q, u);
      r := node;
    }

    method ClearIterator(it: Iterator)
      requires Walkable() && it.stack.Length == AVL_MAX_HEIGHT
      modifies it
      ensures Walkable() && Synced(it) && it.current == null && it.stack_height == 0
      ensures Stacked(it, Top, shape)
    {
      it.current := null;
      it.stack_height := 0;
    }

    method SetCurrent(it: Iterator, node: Node, ghost p: Path, ghost t: Tree)
      requires Walkable() && Stacked(it, p, t) && Ptr(t) == node
      modifies it`current
      ensures Walkable() && Synced(it) && it.current == node
    {
      PlugNodes(p, t);
      LocatePlug(p, t);
      it.current := node;
    }

    /** The documented way through a tree: every node once, in sorted order. */
    method Traverse(it: Iterator) returns (visited: seq<Node>)
      requires Walkable() && it.stack.Length == AVL_MAX_HEIGHT
      modifies it, it.stack
      ensures visited == InOrder(shape) && it.current == null
    {
      ClearIterator(it);
      visited := [];
      var node := GetNext(it, 0);
      while node != null
        invariant Walkable() && Synced(it) && node == it.current
        invariant |visited| <= |InOrder(shape)| && visited == InOrder(shape)[..|visited|]
        invariant node == if |visited| < |InOrder(shape)| then InOrder(shape)[|visited|] else null
        decreases |InOrder(shape)| - |visited|
      {
        visited := visited + [node];
        node := GetNext(it, |visited| - 1);
      }
    }

    /** A step forth that finds a node is undone by a step back. */
    method ForthAndBack(it: Iterator, ghost i: nat) returns (moved: bool)
      requires Walkable() && Synced(it) && StandsAt(it, i)
      modifies it, it.stack
      ensures Walkable() && Synced(it)
      ensures moved <==> i + 1 < |InOrder(shape)|
      ensures it.current == if moved then old(it.current) else null
    {
      var next := GetNext(it, i);
      moved := next != null;
      if moved { var _ := GetPrevious(it, i + 1); }
    }

    lemma SmallIsWalkable()
      requires Valid() && Balanced() && numElements < 14930351
      ensures Walkable()
    {
      ShallowEnough(shape);
    }

    /** A node with the same key as `value`, if there is one. */
    method FindNode(value: Node?) returns (r: FindResult)
      requires Valid()
      ensures r == IllegalArgument <==> value == null
      ensures r.Found? ==> r.node in InOrder(shape) && r.node.key == value.key
      ensures r == NotFound ==> forall n <- InOrder(shape) :: n.key != value.key
    {
      if value == null { return IllegalArgument; }
      var cur := root;
      ghost var p, t := Top, shape;
      while cur != null
        invariant Valid() && Plug(p, t) == shape && Ptr(t) == cur
        invariant Slot(p, value.key, true)
        decreases t
      {
        SpellsPlug(p, t);
        Reads(p, t);
        var cmp := Compare(cur, value);
        if cmp == -1 {
          SlotLeft(p, t, value.key, true);
          cur := cur.left;
          p, t := InLeft(p, t.node, t.bal, t.right), t.left;
        } else if cmp == 1 {
          SlotRight(p, t, value.key, true);
          cur := cur.right;
          p, t := InRight(p, t.left, t.node, t.bal), t.right;
        } else {
          PlugInOrder(p, t);
          InOrderFork(t);
          return Found(cur);
        }
      }
      PlugNil(p);
      return NotFound;
    }

    method AddNode(item: Node?) returns (r: AddResult)
      requires Valid() && Balanced()
      requires item != null ==> item !in Nodes(shape)
      modifies this, item, Nodes(shape)
      ensures Valid() && Balanced() && dupes == old(dupes)
      ensures r == EmptyData <==> item == null
      ensures r == Duplicate <==>
                item != null && !dupes && exists n <- old(InOrder(shape)) :: n.key == item.key
      ensures r != Added ==> shape == old(shape)
      ensures r == Added ==> InOrder(shape) == Inserted(old(InOrder(shape)), item)
    {
      if item == null { return EmptyData; }
      item.right, item.left := null, null;
      item.balance := 0;
      if root == null {
        root := item;
        item.parent := null;
        numElements := numElements + 1;
        shape := Fork(Nil, item, 0, Nil);
        return Added;
      }
      var node, cmp, duplicate, p := FindSlot(item);
      if duplicate { return Duplicate; }
      InsertAt(item, node, cmp, p);
      return Added;
    }

    /** Records which tree the links spell by now. */
    ghost method Record(t: Tree)
      requires Spells(Top, t)
      modifies this`shape
      ensures Spells(Top, t) && shape == t
    {
      shape := t;
    }

    /** The rest of an insertion once the place is known. */
    method InsertAt(item: Node, node: Node, cmp: int, ghost p: Path)
      requires Valid() && Balanced() && item !in Nodes(shape)
      requires item.left == null && item.right == null && item.balance == 0
      requires Plug(p, Nil) == shape && !p.Top? && node == p.node && (p.InRight? <==> cmp > 0)
      requires Slot(p, item.key, !dupes)
      modifies this`root, this`numElements, this`shape, item, Nodes(shape)
      ensures Valid() && Balanced()
      ensures InOrder(shape) == Inserted(old(InOrder(shape)), item)
    {
      hide Height, Avl, PathAvl, InOrder, Before, After, Plug, Sorted, Slot, Inserted, AvlShape.UpInsert;
      ghost var leaf := Fork(Nil, item, 0, Nil);
      ghost var f := Above(p, leaf, 1);
      PlugNodes(p, Nil);
      SpellsPlug(p, Nil);
      InsertedTree(p, item);
      InsertedOrder(p, item, !dupes);
      Attach(item, node, cmp, p);
      Lean(item, 1, p, leaf);
      numElements := numElements + 1;
      Reads(p.up, f);
      if node.balance != 0 {
        UpInsert(node, p.up, f);
      } else {
        SpellsPlug(p.up, f);
        UpInsertStops(p.up, f);
      }
      Record(AvlShape.UpInsert(p.up, f));
    }
  }

  datatype FindResult = Found(node: Node) | NotFound | IllegalArgument
  datatype EraseResult = Erased | NullPointer
  datatype AddResult = Added | Duplicate | EmptyData

  /** What an insertion at the end of `p` makes of the tree. */
  lemma InsertedTree(p: Path, item: Node)
    requires !p.Top? && Avl(Plug(p, Nil))
    ensures var f := Above(p, Fork(Nil, item, 0, Nil), 1);
            && Grown(p.up, f) && Avl(AvlShape.UpInsert(p.up, f))
            && InOrder(AvlShape.UpInsert(p.up, f)) == Before(p) + [item] + After(p)
  {
    var leaf := Fork(Nil, item, 0, Nil);
    assert InOrder(leaf) == [item];
    hide InOrder, Before, After, Plug, Avl, Height, PathAvl, AvlShape.UpInsert, Grown;
    HeightZero(Nil);
    PlugAvl(p, Nil);
    GrownLeaf(p, leaf);
    UpInsertRestores(p.up, Above(p, leaf, 1));
    AboveInOrder(p, leaf, 1);
  }

  lemma InsertedOrder(p: Path, item: Node, strict: bool)
    requires Sorted(InOrder(Plug(p, Nil))) && Slot(p, item.key, strict)
    ensures Before(p) + [item] + After(p) == Inserted(InOrder(Plug(p, Nil)), item)
    ensures Sorted(Before(p) + [item] + After(p))
    ensures |Before(p) + [item] + After(p)| == |InOrder(Plug(p, Nil))| + 1
  {
    hide InOrder, Before, After, Plug, Sorted, Inserted;
    PlugNil(p);
    InsertedSorted(Before(p), After(p), item);
  }

  lemma UpInsertStops(p: Path, t: Tree)
    requires Grown(p, t) && t.bal == 0
    ensures AvlShape.UpInsert(p, t) == Plug(p, t)
  {
  }

  /** What an erase at `p`, `t` makes of the tree. */
  lemma ErasedTree(mended: bool, p: Path, t: Tree)
    requires t.Fork? && Avl(t) && PathAvl(p, Height(t)) && Apart(p, t)
    requires Sorted(InOrder(Plug(p, t)))
    ensures InOrder(AvlShape.Erase(mended, p, t)) == Without(InOrder(Plug(p, t)), t.node)
    ensures Sorted(InOrder(AvlShape.Erase(mended, p, t)))
    ensures |InOrder(AvlShape.Erase(mended, p, t))| + 1 == |InOrder(Plug(p, t))|
    ensures Avl(AvlShape.Erase(mended, p, t)) <==> mended || !EraseStuck(p, t)
    ensures !mended && EraseStuck(p, t) ==> NearlyAvl(AvlShape.Erase(mended, p, t))
  {
    hide InOrder, Before, After, Plug, Sorted, Avl, Height, PathAvl, AvlShape.Erase, Without, EraseStuck;
    EraseRemoves(mended, p, t);
    ErasedShape(mended, p, t);
    PlugInOrder(p, t);
    InOrderFork(t);
    var a, b := Before(p) + InOrder(t.left), InOrder(t.right) + After(p);
    assert Before(p) + InOrder(t) + After(p) == a + [t.node] + b;
    assert Before(p) + InOrder(t.left) + InOrder(t.right) + After(p) == a + b;
    if t.node in Before(p) { BeforeNode(p, t.node); }
    InOrderNode(t.left, t.node);
    WithoutBetween(a, t.node, b);
    SortedWithout(a, t.node, b);
  }

  lemma ErasedShape(mended: bool, p: Path, t: Tree)
    requires t.Fork? && Avl(t) && PathAvl(p, Height(t))
    ensures !mended && EraseStuck(p, t) ==> NearlyAvl(AvlShape.Erase(mended, p, t))
  {
    EraseRemoves(mended, p, t);
    if !mended && EraseStuck(p, t) {
      SonLower(t);
      ShrunkStep(p, Son(t));
    }
  }

  lemma {:induction false} Depth(p: Path, t: Tree)
    ensures |Ancestors(p)| + Height(t) <= Height(Plug(p, t))
    decreases p
  {
    if !p.Top? { Depth(p.up, Above(p, t, 0)); }
  }

  lemma PlugStep(p: Path, t: Tree)
    requires !p.Top?
    ensures Plug(p, t) == Plug(p.up, Above(p, t, 0))
  {
  }

  lemma AncestorsUp(p: Path)
    requires !p.Top?
    ensures Ancestors(p)[..|Ancestors(p)| - 1] == Ancestors(p.up)
    ensures Ancestors(p)[|Ancestors(p)| - 1] == p.node
  {
  }

  lemma LastBelow(p: Path, t: Tree)
    requires t.Fork? && t.right.Nil?
    ensures |Before(p)| + |InOrder(t)| == Rank(p, t) + 1
  {
  }

  lemma InOrderNil(t: Tree)
    requires t.Fork? && t.left.Nil?
    ensures InOrder(t.left) == []
  {
  }

  lemma AncestorsTop(p: Path, t: Tree)
    requires Ancestors(p) == []
    ensures p.Top? && Before(p) == [] && Plug(p, t) == t
  {
  }

  /** How positions change on the way up. */
  lemma RankAbove(p: Path, t: Tree)
    requires !p.Top?
    ensures p.InLeft? ==>
              Before(p) == Before(p.up) && Rank(p.up, Above(p, t, 0)) == |Before(p)| + |InOrder(t)|
    ensures p.InRight? ==>
              && |Before(p)| == Rank(p.up, Above(p, t, 0)) + 1
              && |Before(p)| + |InOrder(t)| == |Before(p.up)| + |InOrder(Above(p, t, 0))|
  {
    InOrderFork(Above(p, t, 0));
  }
}
