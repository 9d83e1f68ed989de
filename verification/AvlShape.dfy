/** Trees with stored balances, the path from a subtree up to the root, and the
    rebalancing steps of the AVL algorithm as functions on those values. The
    pointer code in AvlTree.dfy is proved to compute exactly these functions. */
module AvlShape {

  /** A tree node as the pointer code sees it. */
  type Value(==, 0)

  /** A node of the tree, with what the map template stores in it: the key, the
      value and the place in memory where it was built. */
  class Node {
    const key: int
    const value: Value
    const address: int
    var left: Node?
    var right: Node?
    var parent: Node?
    var balance: int

    constructor (key: int, value: Value, address: int)
      ensures this.key == key && this.value == value && this.address == address
    {
      this.key, this.value, this.address := key, value, address;
    }
  }

  datatype Tree = Nil | Fork(left: Tree, node: Node, bal: int, right: Tree)

  /** Everything above a subtree, innermost ancestor first. `InLeft(up, n, b, r)`
      says the subtree is the left child of `n`. */
  datatype Path =
    | Top
    | InLeft(up: Path, node: Node, bal: int, right: Tree)
    | InRight(up: Path, left: Tree, node: Node, bal: int)

  function Max(a: int, b: int): int { if a < b then b else a }

  function Height(t: Tree): nat {
    if t.Nil? then 0 else 1 + Max(Height(t.left), Height(t.right))
  }

  lemma HeightFork(t: Tree)
    requires t.Fork?
    ensures Height(t) == 1 + Max(Height(t.left), Height(t.right))
  {
  }

  lemma InOrderFork(t: Tree)
    requires t.Fork?
    ensures InOrder(t) == InOrder(t.left) + [t.node] + InOrder(t.right)
  {
  }

  function InOrder(t: Tree): seq<Node> {
    if t.Nil? then [] else InOrder(t.left) + [t.node] + InOrder(t.right)
  }

  /** The stored balance of this node is the difference of the heights below it. */
  ghost predicate ExactHere(t: Tree) {
    t.Fork? ==> t.bal == Height(t.right) - Height(t.left)
  }

  ghost predicate Avl(t: Tree) {
    t.Fork? ==> ExactHere(t) && -1 <= t.bal <= 1 && Avl(t.left) && Avl(t.right)
  }

  /** Exact at the top with AVL subtrees; the top itself may lean by two. */
  ghost predicate NearlyAvl(t: Tree) {
    t.Fork? && ExactHere(t) && -2 <= t.bal <= 2 && Avl(t.left) && Avl(t.right)
  }

  lemma NearlyAvlWithin(t: Tree)
    requires t.Fork?
    ensures Avl(t) <==> NearlyAvl(t) && -1 <= t.bal <= 1
  {
  }

  function Plug(p: Path, t: Tree): Tree
    decreases p
  {
    match p
    case Top => t
    case InLeft(up, n, b, r) => Plug(up, Fork(t, n, b, r))
    case InRight(up, l, n, b) => Plug(up, Fork(l, n, b, t))
  }

  function Before(p: Path): seq<Node> {
    match p
    case Top => []
    case InLeft(up, _, _, _) => Before(up)
    case InRight(up, l, n, _) => Before(up) + InOrder(l) + [n]
  }

  function After(p: Path): seq<Node> {
    match p
    case Top => []
    case InLeft(up, n, _, r) => [n] + InOrder(r) + After(up)
    case InRight(up, _, _, _) => After(up)
  }

  /** Ancestors from the root downwards: the contents of an iterator's stack. */
  function Ancestors(p: Path): seq<Node> {
    if p.Top? then [] else Ancestors(p.up) + [p.node]
  }

  /** The ancestors are AVL nodes provided a subtree of height `h` hangs here. */
  ghost predicate PathAvl(p: Path, h: nat) {
    match p
    case Top => true
    case InLeft(up, _, b, r) =>
      b == Height(r) - h && -1 <= b <= 1 && Avl(r) && PathAvl(up, 1 + Max(h, Height(r)))
    case InRight(up, l, _, b) =>
      b == h - Height(l) && -1 <= b <= 1 && Avl(l) && PathAvl(up, 1 + Max(Height(l), h))
  }

  /** The parent's subtree once `t` below it became `d` higher than before. */
  function Above(p: Path, t: Tree, d: int): Tree
    requires !p.Top?
  {
    match p
    case InLeft(up, n, b, r) => Fork(t, n, b - d, r)
    case InRight(up, l, n, b) => Fork(l, n, b + d, t)
  }

  lemma AboveInOrder(p: Path, t: Tree, d: int)
    requires !p.Top?
    ensures Before(p.up) + InOrder(Above(p, t, d)) + After(p.up) == Before(p) + InOrder(t) + After(p)
  {
  }

  lemma {:induction false} PlugInOrder(p: Path, t: Tree)
    ensures InOrder(Plug(p, t)) == Before(p) + InOrder(t) + After(p)
    decreases p
  {
    if !p.Top? {
      PlugInOrder(p.up, Above(p, t, 0));
      AboveInOrder(p, t, 0);
    }
  }

  lemma {:induction false} PlugAvl(p: Path, t: Tree)
    ensures Avl(Plug(p, t)) <==> Avl(t) && PathAvl(p, Height(t))
    decreases p
  {
    if !p.Top? {
      hide Avl, Height;
      var f := Above(p, t, 0);
      HeightFork(f);
      NearlyAvlWithin(f);
      PlugAvl(p.up, f);
    }
  }

  // ------------------------------------------------------------- rotation

  /** The child that a rotation of `t` lifts: the left one if `t` leans left. */
  function Lifted(t: Tree): Tree
    requires t.Fork?
  {
    if t.bal < 0 then t.left else t.right
  }

  /** The source's table: the balances (node, lifted child) have after the rotation. */
  function NewBalances(bal: int, child: int): (int, int) {
    if bal == -1 then
      if child == 1 then (0, 2) else (if child == -1 then 1 else 0, 1)
    else if bal == -2 then
      if child == -1 then (0, 0) else if child == 0 then (-1, 1) else if child == -2 then (1, 0)
      else (bal, child)
    else if bal == 1 then
      if child == -1 then (0, -2) else (if child == 1 then -1 else 0, -1)
    else if bal == 2 then
      if child == 1 then (0, 0) else if child == 0 then (1, -1) else if child == 2 then (-1, 0)
      else (bal, child)
    else (bal, child)
  }

  /** One rotation around `t`: the child it leans to is lifted above it. */
  function Rotate(t: Tree): (r: Tree)
    requires t.Fork? && Lifted(t).Fork?
    ensures r.Fork?
  {
    var c := Lifted(t);
    var (kb, cb) := NewBalances(t.bal, c.bal);
    if t.bal < 0 then Fork(c.left, c.node, cb, Fork(c.right, t.node, kb, t.right))
    else Fork(Fork(t.left, t.node, kb, c.left), c.node, cb, c.right)
  }

  /** The rows of the balance table. */
  predicate InTable(t: Tree)
    requires t.Fork? && Lifted(t).Fork?
  {
    var c := Lifted(t).bal;
    || ((t.bal == -1 || t.bal == 1) && -1 <= c <= 1)
    || (t.bal == -2 && -2 <= c <= 0)
    || (t.bal == 2 && 0 <= c <= 2)
  }

  lemma RotateInOrder(t: Tree)
    requires t.Fork? && Lifted(t).Fork?
    ensures InOrder(Rotate(t)) == InOrder(t)
  {
    var c := Lifted(t);
    if t.bal < 0 {
      assert InOrder(c) + [t.node] + InOrder(t.right)
          == InOrder(c.left) + [c.node] + (InOrder(c.right) + [t.node] + InOrder(t.right));
    } else {
      assert InOrder(t.left) + [t.node] + InOrder(c)
          == (InOrder(t.left) + [t.node] + InOrder(c.left)) + [c.node] + InOrder(c.right);
    }
  }

  /** The table is right in exactly its rows: rotating a tree whose two top
      balances are exact gives exact balances if and only if the pair is listed. */
  lemma RotateExact(t: Tree)
    requires t.Fork? && Lifted(t).Fork? && ExactHere(t) && ExactHere(Lifted(t))
    ensures InTable(t) <==>
            var r := Rotate(t);
            ExactHere(r) && ExactHere(if t.bal < 0 then r.right else r.left)
  {
  }

  /** The double rotation: first the leaning child, then the node itself. */
  function RotateTwice(t: Tree): (r: Tree)
    requires t.Fork? && Lifted(t).Fork? && Lifted(Lifted(t)).Fork?
    ensures r.Fork?
  {
    if t.bal < 0 then Rotate(t.(left := Rotate(t.left)))
    else Rotate(t.(right := Rotate(t.right)))
  }

  lemma RotateTwiceInOrder(t: Tree)
    requires t.Fork? && Lifted(t).Fork? && Lifted(Lifted(t)).Fork?
    ensures InOrder(RotateTwice(t)) == InOrder(t)
  {
    RotateInOrder(Lifted(t));
    RotateInOrder(if t.bal < 0 then t.(left := Rotate(t.left)) else t.(right := Rotate(t.right)));
  }

  /** Does the heavy child lean towards the middle of the tree? */
  predicate LeansInward(t: Tree)
    requires t.Fork? && Lifted(t).Fork?
  {
    if t.bal < 0 then Lifted(t).bal > 0 else Lifted(t).bal < 0
  }

  predicate Tilted(t: Tree) { t.Fork? && (t.bal == 2 || t.bal == -2) }

  lemma TiltedHasChild(t: Tree)
    requires NearlyAvl(t) && Tilted(t)
    ensures Lifted(t).Fork? && NearlyAvl(Lifted(t))
    ensures LeansInward(t) ==> Lifted(Lifted(t)).Fork? && NearlyAvl(Lifted(Lifted(t)))
  {
  }

  /** A single rotation repairs an outward (or even) lean of the heavy child. */
  lemma RotateAvl(t: Tree)
    requires NearlyAvl(t) && Tilted(t)
    ensures Lifted(t).Fork?
    ensures !LeansInward(t) ==>
              && Avl(Rotate(t)) && (Rotate(t).bal == 0 <==> Lifted(t).bal != 0)
              && Height(Rotate(t)) == if Lifted(t).bal == 0 then Height(t) else Height(t) - 1
  {
    TiltedHasChild(t);
    RotateExact(t);
  }

  /** A double rotation of an inward lean lifts the grandchild between the two. */
  lemma RotateTwiceShape(t: Tree)
    requires Tilted(t) && Lifted(t).Fork? && LeansInward(t) && Lifted(Lifted(t)).Fork?
    requires -1 <= Lifted(t).bal <= 1 && -1 <= Lifted(Lifted(t)).bal <= 1
    ensures var (c, g) := (Lifted(t), Lifted(Lifted(t)));
            RotateTwice(t) ==
            if t.bal < 0 then
              Fork(Fork(c.left, c.node, if g.bal == 1 then -1 else 0, g.left), g.node, 0,
                   Fork(g.right, t.node, if g.bal == -1 then 1 else 0, t.right))
            else
              Fork(Fork(t.left, t.node, if g.bal == 1 then -1 else 0, g.left), g.node, 0,
                   Fork(g.right, c.node, if g.bal == -1 then 1 else 0, c.right))
  {
  }

  /** A double rotation repairs an inward lean. */
  lemma RotateTwiceAvl(t: Tree)
    requires NearlyAvl(t) && Tilted(t)
    ensures Lifted(t).Fork?
    ensures LeansInward(t) ==>
              && Lifted(Lifted(t)).Fork?
              && Avl(RotateTwice(t)) && RotateTwice(t).bal == 0
              && Height(RotateTwice(t)) == Height(t) - 1
  {
    TiltedHasChild(t);
    if LeansInward(t) {
      RotateTwiceShape(t);
      var r := RotateTwice(t);
      assert Height(r.left) == Height(r.right) == Height(t) - 2;
      assert Avl(r.left) && Avl(r.right);
    }
  }

  // ------------------------------------------------------------ insertion

  /** `t` has just grown from a height that suited `p`, unless its balance is 0. */
  ghost predicate Grown(p: Path, t: Tree) {
    && NearlyAvl(t)
    && (Tilted(t) ==> Lifted(t).Fork? && Lifted(t).bal != 0)
    && PathAvl(p, if t.bal == 0 then Height(t) else Height(t) - 1)
  }

  lemma GrownStep(p: Path, t: Tree)
    requires Grown(p, t) && !Tilted(t) && t.bal != 0 && !p.Top?
    ensures Grown(p.up, Above(p, t, 1))
  {
    hide Height, Avl;
    NearlyAvlWithin(t);
    HeightFork(Above(p, t, 1));
  }

  /** Hanging a new leaf at the end of a path makes its parent grow. */
  lemma GrownLeaf(p: Path, leaf: Tree)
    requires !p.Top? && PathAvl(p, 0)
    requires leaf.Fork? && leaf.left.Nil? && leaf.right.Nil? && leaf.bal == 0
    ensures Grown(p.up, Above(p, leaf, 1))
  {
    var f := Above(p, leaf, 1);
    assert Height(leaf) == 1 && Avl(leaf);
    hide Avl;
    HeightFork(f);
    HeightZero(if p.InLeft? then p.right else p.left);
  }

  lemma HeightZero(t: Tree)
    ensures Height(t) == 0 <==> t.Nil?
  {
  }

  ghost function UpInsert(p: Path, t: Tree): Tree
    requires Grown(p, t)
    decreases p
  {
    if Tilted(t) then Plug(p, Untilt(t))
    else if t.bal == 0 then Plug(p, t)
    else
      if p.Top? then t
      else GrownStep(p, t); UpInsert(p.up, Above(p, t, 1))
  }

  /** The rotation that insertion chooses: single when the child leans the same way. */
  ghost function Untilt(t: Tree): Tree
    requires NearlyAvl(t) && Tilted(t)
  {
    TiltedHasChild(t);
    if Lifted(t).bal * 2 == t.bal then Rotate(t) else RotateTwice(t)
  }

  lemma UntiltAvl(t: Tree)
    requires NearlyAvl(t) && Tilted(t) && Lifted(t).Fork? && Lifted(t).bal != 0
    ensures Avl(Untilt(t)) && Height(Untilt(t)) == Height(t) - 1
    ensures InOrder(Untilt(t)) == InOrder(t)
  {
    TiltedHasChild(t);
    RotateAvl(t);
    RotateTwiceAvl(t);
    RotateInOrder(t);
    if LeansInward(t) { RotateTwiceInOrder(t); }
  }

  lemma {:induction false} UpInsertRestores(p: Path, t: Tree)
    requires Grown(p, t)
    ensures Avl(UpInsert(p, t))
    ensures InOrder(UpInsert(p, t)) == Before(p) + InOrder(t) + After(p)
    decreases p
  {
    if Tilted(t) {
      UntiltAvl(t);
      PlugInOrder(p, Untilt(t));
      PlugAvl(p, Untilt(t));
    } else if t.bal == 0 || p.Top? {
      PlugInOrder(p, t);
      PlugAvl(p, t);
    } else {
      GrownStep(p, t);
      AboveInOrder(p, t, 1);
      UpInsertRestores(p.up, Above(p, t, 1));
    }
  }

  // ------------------------------------------------------------- deletion

  /** `t` has just lost a node: at balance 0 it is one lower than `p` expects. */
  ghost predicate Shrunk(p: Path, t: Tree) {
    && NearlyAvl(t)
    && PathAvl(p, if t.bal == 0 then Height(t) + 1 else Height(t))
  }

  /** The root itself has lost a node directly and needs a double rotation. The
      source then rotates the lifted child a second time instead of the root. Below,
      `mended` stands for the intended form, in which the root is rotated. */
  predicate RootStuck(p: Path, t: Tree) {
    p.Top? && t.Fork? && Tilted(t) && Lifted(t).Fork? && LeansInward(t)
  }

  /** The source's statement pair `node=rotate(child); rotate(node)` at the root. */
  function RotateChildTwice(t: Tree): Tree
    requires t.Fork? && Lifted(t).Fork? && Lifted(Lifted(t)).Fork?
    requires Lifted(Rotate(Lifted(t))).Fork?
  {
    if t.bal < 0 then t.(left := Rotate(Rotate(t.left))) else t.(right := Rotate(Rotate(t.right)))
  }

  /** Rotating the child twice puts back the very tree there was before. */
  lemma RotateChildTwiceUndoes(t: Tree)
    requires NearlyAvl(t) && Tilted(t) && Lifted(t).Fork? && LeansInward(t)
    ensures Lifted(Lifted(t)).Fork? && Lifted(Rotate(Lifted(t))).Fork?
    ensures RotateChildTwice(t) == t
  {
    assert NearlyAvl(Lifted(t));
    assert NearlyAvl(Lifted(Lifted(t)));
  }

  function Abs(x: int): nat { if x < 0 then -x else x }

  /** Deals with a node of balance 2 or -2, then carries on upwards if it got lower. */
  ghost function Settle(mended: bool, p: Path, t: Tree): Tree
    requires Shrunk(p, t) && Tilted(t)
    decreases p, Abs(t.bal), 0
  {
    RotateAvl(t);
    RotateTwiceAvl(t);
    if LeansInward(t) then UpDelete(mended, p, RotateTwice(t))
    else if Lifted(t).bal == 0 then Plug(p, Rotate(t))
    else UpDelete(mended, p, Rotate(t))
  }

  /** A subtree one lower than its ancestors expect hands a shrunken parent upwards. */
  lemma ShrunkStep(p: Path, s: Tree)
    requires !p.Top? && Avl(s) && PathAvl(p, Height(s) + 1)
    ensures Shrunk(p.up, Above(p, s, -1))
  {
    hide Height, Avl;
    HeightFork(Above(p, s, -1));
  }

  ghost function UpDelete(mended: bool, p: Path, t: Tree): Tree
    requires Shrunk(p, t)
    decreases p, Abs(t.bal), 1
  {
    if Tilted(t) then
      if RootStuck(p, t) && !mended then RotateChildTwiceUndoes(t); RotateChildTwice(t)
      else Settle(mended, p, t)
    else if t.bal != 0 then Plug(p, t)
    else if p.Top? then t
    else
      ShrunkStep(p, t);
      var f := Above(p, t, -1);
      if Tilted(f) then Settle(mended, p.up, f) else UpDelete(mended, p.up, f)
  }

  lemma SettleCases(mended: bool, p: Path, t: Tree)
    requires Shrunk(p, t) && Tilted(t)
    ensures Lifted(t).Fork? && -1 <= Lifted(t).bal <= 1
    ensures LeansInward(t) ==>
              && Lifted(Lifted(t)).Fork? && RotateTwice(t).bal == 0 && Shrunk(p, RotateTwice(t))
              && Settle(mended, p, t) == UpDelete(mended, p, RotateTwice(t))
    ensures !LeansInward(t) && Lifted(t).bal == 0 ==> Settle(mended, p, t) == Plug(p, Rotate(t))
    ensures !LeansInward(t) && Lifted(t).bal != 0 ==>
              && Rotate(t).bal == 0 && Shrunk(p, Rotate(t))
              && Settle(mended, p, t) == UpDelete(mended, p, Rotate(t))
  {
    hide Height, Rotate, RotateTwice, PathAvl;
    TiltedHasChild(t);
    RotateAvl(t);
    RotateTwiceAvl(t);
  }

  lemma UpDeleteAtRoot(mended: bool, t: Tree)
    requires Shrunk(Top, t) && Tilted(t)
    ensures Lifted(t).Fork?
    ensures !LeansInward(t) ==> UpDelete(mended, Top, t) == Rotate(t)
    ensures LeansInward(t) && mended ==> Lifted(Lifted(t)).Fork? && UpDelete(mended, Top, t) == RotateTwice(t)
    ensures LeansInward(t) && !mended ==> RootStuck(Top, t) && UpDelete(mended, Top, t) == t
  {
    if LeansInward(t) { RotateChildTwiceUndoes(t); }
    SettleCases(mended, Top, t);
    var r := if LeansInward(t) then RotateTwice(t) else Rotate(t);
    hide Rotate, RotateTwice, Height;
    if !LeansInward(t) || mended {
      assert UpDelete(mended, Top, t) == Settle(mended, Top, t);
      assert r.bal == 0 && Shrunk(Top, r) ==> UpDelete(mended, Top, r) == r;
    }
  }

  /** Rebalancing after a deletion restores the AVL balance unless the root is
      stuck, and then it gives back the tree as it was handed over. */
  lemma {:induction false} UpDeleteRestores(mended: bool, p: Path, t: Tree)
    requires Shrunk(p, t)
    ensures Avl(UpDelete(mended, p, t)) <==> mended || !RootStuck(p, t)
    ensures RootStuck(p, t) && !mended ==> UpDelete(mended, p, t) == t
    ensures InOrder(UpDelete(mended, p, t)) == Before(p) + InOrder(t) + After(p)
    decreases p, Abs(t.bal), 1
  {
    if Tilted(t) {
      if RootStuck(p, t) && !mended { RotateChildTwiceUndoes(t); } else { SettleRestores(mended, p, t); }
    } else if t.bal != 0 || p.Top? {
      PlugInOrder(p, t);
      PlugAvl(p, t);
    } else {
      ShrunkStep(p, t);
      AboveInOrder(p, t, -1);
      var f := Above(p, t, -1);
      if Tilted(f) { SettleRestores(mended, p.up, f); } else { UpDeleteRestores(mended, p.up, f); }
    }
  }

  lemma {:induction false} SettleRestores(mended: bool, p: Path, t: Tree)
    requires Shrunk(p, t) && Tilted(t)
    ensures Avl(Settle(mended, p, t))
    ensures InOrder(Settle(mended, p, t)) == Before(p) + InOrder(t) + After(p)
    decreases p, Abs(t.bal), 0
  {
    hide InOrder, Before, After, Rotate, RotateTwice;
    RotateAvl(t);
    RotateTwiceAvl(t);
    if LeansInward(t) {
      RotateTwiceInOrder(t);
      UpDeleteRestores(mended, p, RotateTwice(t));
    } else {
      RotateInOrder(t);
      if Lifted(t).bal == 0 {
        PlugInOrder(p, Rotate(t));
        PlugAvl(p, Rotate(t));
      } else {
        UpDeleteRestores(mended, p, Rotate(t));
      }
    }
  }

  /** The rightmost (or leftmost) node of `t`, with the path that leads to it. */
  function Extreme(p: Path, t: Tree, rightmost: bool): (spot: (Path, Tree))
    requires t.Fork?
    ensures spot.1.Fork? && (if rightmost then spot.1.right.Nil? else spot.1.left.Nil?)
    decreases t
  {
    if rightmost && t.right.Fork? then Extreme(InRight(p, t.left, t.node, t.bal), t.right, true)
    else if !rightmost && t.left.Fork? then Extreme(InLeft(p, t.node, t.bal, t.right), t.left, false)
    else (p, t)
  }

  lemma {:induction false} ExtremePlug(p: Path, t: Tree, rightmost: bool)
    requires t.Fork?
    ensures var (q, u) := Extreme(p, t, rightmost); Plug(q, u) == Plug(p, t)
    decreases t
  {
    if rightmost && t.right.Fork? {
      ExtremePlug(InRight(p, t.left, t.node, t.bal), t.right, true);
    } else if !rightmost && t.left.Fork? {
      ExtremePlug(InLeft(p, t.node, t.bal, t.right), t.left, false);
    }
  }

  lemma {:induction false} RightmostInOrder(p: Path, t: Tree)
    requires t.Fork?
    ensures var (q, u) := Extreme(p, t, true);
            After(q) == After(p) && Before(q) + InOrder(u) == Before(p) + InOrder(t)
    decreases t
  {
    if t.right.Fork? { RightmostInOrder(InRight(p, t.left, t.node, t.bal), t.right); }
  }

  lemma {:induction false} LeftmostInOrder(p: Path, t: Tree)
    requires t.Fork?
    ensures var (q, u) := Extreme(p, t, false);
            Before(q) == Before(p) && InOrder(u) + After(q) == InOrder(t) + After(p)
    decreases t
  {
    if t.left.Fork? {
      LeftmostInOrder(InLeft(p, t.node, t.bal, t.right), t.left);
    }
  }

  /** Which node is extreme does not depend on what is above. */
  lemma {:induction false} ExtremeTree(p: Path, p': Path, t: Tree, rightmost: bool)
    requires t.Fork?
    ensures Extreme(p, t, rightmost).1 == Extreme(p', t, rightmost).1
    decreases t
  {
    if rightmost && t.right.Fork? {
      ExtremeTree(InRight(p, t.left, t.node, t.bal), InRight(p', t.left, t.node, t.bal), t.right, true);
    } else if !rightmost && t.left.Fork? {
      ExtremeTree(InLeft(p, t.node, t.bal, t.right), InLeft(p', t.node, t.bal, t.right), t.left, false);
    }
  }

  lemma ExtremeAvl(p: Path, t: Tree, rightmost: bool)
    requires t.Fork? && Avl(t) && PathAvl(p, Height(t))
    ensures var (q, u) := Extreme(p, t, rightmost); Avl(u) && PathAvl(q, Height(u))
  {
    var (q, u) := Extreme(p, t, rightmost);
    ExtremePlug(p, t, rightmost);
    PlugAvl(p, t);
    PlugAvl(q, u);
  }

  /** The node that takes the place of one with two children: the neighbour from
      the side that is not lower. */
  function Substitute(t: Tree): Node
    requires t.Fork? && t.left.Fork? && t.right.Fork?
  {
    if t.bal < 0 then Extreme(Top, t.left, true).1.node else Extreme(Top, t.right, false).1.node
  }

  /** Where the node to be unlinked sits after it changed places with `Substitute`. */
  function SwapSpot(p: Path, t: Tree): (spot: (Path, Tree))
    requires t.Fork?
    ensures spot.1.Fork? && (spot.1.left.Nil? || spot.1.right.Nil?)
  {
    if t.left.Nil? || t.right.Nil? then (p, t)
    else
      var s := Substitute(t);
      var (q, u) := Extreme(Beneath(p, t, s), if t.bal < 0 then t.left else t.right, t.bal < 0);
      (q, u.(node := t.node))
  }

  /** Takes out a node with at most one child. */
  ghost function Unlink(mended: bool, p: Path, t: Tree): Tree
    requires t.Fork? && (t.left.Nil? || t.right.Nil?)
    requires Avl(t) && PathAvl(p, Height(t))
  {
    SonLower(t);
    if p.Top? then Son(t)
    else ShrunkStep(p, Son(t)); UpDelete(mended, p.up, Above(p, Son(t), -1))
  }

  lemma SonLower(t: Tree)
    requires t.Fork? && Avl(t) && (t.left.Nil? || t.right.Nil?)
    ensures Avl(Son(t)) && Height(Son(t)) + 1 == Height(t)
  {
  }

  function Son(t: Tree): Tree
    requires t.Fork?
  {
    if t.left.Fork? then t.left else t.right
  }

  /** The path to a node's child once the node is replaced by `s`. */
  function Beneath(p: Path, t: Tree, s: Node): Path
    requires t.Fork?
  {
    if t.bal < 0 then InLeft(p, s, t.bal, t.right) else InRight(p, t.left, s, t.bal)
  }

  lemma SwapSpotAvl(p: Path, t: Tree)
    requires t.Fork? && Avl(t) && PathAvl(p, Height(t))
    ensures var (q, u) := SwapSpot(p, t);
            Avl(u) && PathAvl(q, Height(u))
  {
    if t.left.Fork? && t.right.Fork? {
      ExtremeAvl(Beneath(p, t, Substitute(t)), if t.bal < 0 then t.left else t.right, t.bal < 0);
    }
  }

  ghost function Erase(mended: bool, p: Path, t: Tree): Tree
    requires t.Fork? && Avl(t) && PathAvl(p, Height(t))
  {
    SwapSpotAvl(p, t);
    var (q, u) := SwapSpot(p, t);
    Unlink(mended, q, u)
  }

  /** The guard under which an erase leaves the root unbalanced: the node hangs
      directly under the root and has at most one child, the root leans away from
      it, and the sibling leans inwards. */
  predicate EraseStuck(p: Path, t: Tree) {
    && t.Fork? && (t.left.Nil? || t.right.Nil?)
    && !p.Top? && p.up.Top?
    && (p.InLeft? ==> p.bal == 1 && p.right.Fork? && p.right.bal == -1)
    && (p.InRight? ==> p.bal == -1 && p.left.Fork? && p.left.bal == 1)
  }

  lemma UnlinkInOrder(mended: bool, p: Path, t: Tree)
    requires t.Fork? && (t.left.Nil? || t.right.Nil?)
    requires Avl(t) && PathAvl(p, Height(t))
    ensures InOrder(Unlink(mended, p, t)) == Before(p) + InOrder(Son(t)) + After(p)
    ensures Avl(Unlink(mended, p, t)) <==> mended || p.Top? || !RootStuck(p.up, Above(p, Son(t), -1))
    ensures !mended && !p.Top? && RootStuck(p.up, Above(p, Son(t), -1)) ==>
              Unlink(mended, p, t) == Above(p, Son(t), -1)
  {
    SonLower(t);
    if !p.Top? {
      ShrunkStep(p, Son(t));
      UpDeleteRestores(mended, p.up, Above(p, Son(t), -1));
      AboveInOrder(p, Son(t), -1);
    }
  }

  lemma SwapSpotInOrder(p: Path, t: Tree)
    requires t.Fork?
    ensures var (q, u) := SwapSpot(p, t);
            Before(q) + InOrder(Son(u)) + After(q)
            == Before(p) + InOrder(t.left) + InOrder(t.right) + After(p)
  {
    if t.left.Fork? && t.right.Fork? {
      if t.bal < 0 { SubstituteFromLeft(p, t); } else { SubstituteFromRight(p, t); }
    }
  }

  lemma SubstituteFromLeft(p: Path, t: Tree)
    requires t.Fork? && t.left.Fork? && t.right.Fork? && t.bal < 0
    ensures var (q, u) := SwapSpot(p, t);
            Before(q) + InOrder(Son(u)) + After(q)
            == Before(p) + InOrder(t.left) + InOrder(t.right) + After(p)
  {
    hide InOrder, After, Extreme;
    var s := Substitute(t);
    var p1 := Beneath(p, t, s);
    RightmostInOrder(p1, t.left);
    ExtremeTree(p1, Top, t.left, true);
    var (q, u) := Extreme(p1, t.left, true);
    RightSonOnly(u);
    AfterLeft(p1);
    assert Before(q) + InOrder(Son(u)) + After(q)
        == (Before(q) + (InOrder(Son(u)) + [s])) + InOrder(t.right) + After(p);
  }

  lemma SubstituteFromRight(p: Path, t: Tree)
    requires t.Fork? && t.left.Fork? && t.right.Fork? && t.bal >= 0
    ensures var (q, u) := SwapSpot(p, t);
            Before(q) + InOrder(Son(u)) + After(q)
            == Before(p) + InOrder(t.left) + InOrder(t.right) + After(p)
  {
    hide InOrder, Before, Extreme;
    var s := Substitute(t);
    var p1 := Beneath(p, t, s);
    LeftmostInOrder(p1, t.right);
    ExtremeTree(p1, Top, t.right, false);
    var (q, u) := Extreme(p1, t.right, false);
    RightSonOnly(u);
    BeforeRight(p1);
    assert Before(q) + InOrder(Son(u)) + After(q)
        == Before(p) + InOrder(t.left) + (([s] + InOrder(Son(u))) + After(q));
  }

  lemma AfterLeft(p: Path)
    requires p.InLeft?
    ensures After(p) == [p.node] + InOrder(p.right) + After(p.up) && Before(p) == Before(p.up)
  {
  }

  lemma BeforeRight(p: Path)
    requires p.InRight?
    ensures Before(p) == Before(p.up) + InOrder(p.left) + [p.node] && After(p) == After(p.up)
  {
  }

  /** The substitute is the next node in order if the right side is at least as high, and the
      one before if it is lower. */
  lemma SubstituteIsNeighbour(t: Tree)
    requires t.Fork? && t.left.Fork? && t.right.Fork? && Avl(t)
    ensures InOrder(t.left) != [] && InOrder(t.right) != []
    ensures Substitute(t) ==
            if Height(t.left) <= Height(t.right) then InOrder(t.right)[0]
            else InOrder(t.left)[|InOrder(t.left)| - 1]
  {
    if t.bal < 0 { LastInOrder(t.left); } else { FirstInOrder(t.right); }
    Nonempty(t.left);
    Nonempty(t.right);
    hide InOrder, Extreme;
  }

  lemma Nonempty(t: Tree)
    requires t.Fork?
    ensures InOrder(t) != []
  {
  }

  lemma LastInOrder(t: Tree)
    requires t.Fork?
    ensures InOrder(t) != [] && Extreme(Top, t, true).1.node == InOrder(t)[|InOrder(t)| - 1]
  {
    var (q, u) := Extreme(Top, t, true);
    RightmostInOrder(Top, t);
    RightSonOnly(u);
    Nonempty(t);
    assert Before(Top) == [];
    hide InOrder, Extreme, Before, After;
    assert InOrder(t) == Before(q) + InOrder(u);
  }

  lemma FirstInOrder(t: Tree)
    requires t.Fork?
    ensures InOrder(t) != [] && Extreme(Top, t, false).1.node == InOrder(t)[0]
  {
    var (q, u) := Extreme(Top, t, false);
    LeftmostInOrder(Top, t);
    RightSonOnly(u);
    Nonempty(t);
    assert After(Top) == [];
    hide InOrder, Extreme, Before, After;
    assert InOrder(t) == InOrder(u) + After(q);
  }

  lemma RightSonOnly(u: Tree)
    requires u.Fork?
    ensures u.right.Nil? ==> InOrder(u) == InOrder(Son(u)) + [u.node]
    ensures u.left.Nil? ==> InOrder(u) == [u.node] + InOrder(Son(u))
  {
  }

  /** Erasing takes exactly this node out of the sorted sequence, and the result
      is an AVL tree if and only if the guard does not hold. */
  lemma EraseRemoves(mended: bool, p: Path, t: Tree)
    requires t.Fork? && Avl(t) && PathAvl(p, Height(t))
    ensures InOrder(Erase(mended, p, t)) == Before(p) + InOrder(t.left) + InOrder(t.right) + After(p)
    ensures Avl(Erase(mended, p, t)) <==> mended || !EraseStuck(p, t)
    ensures !mended && EraseStuck(p, t) ==> Erase(mended, p, t) == Above(p, Son(t), -1)
  {
    SwapSpotAvl(p, t);
    SwapSpotInOrder(p, t);
    var (q, u) := SwapSpot(p, t);
    UnlinkInOrder(mended, q, u);
    StuckGuard(p, t);
  }

  /** The guard is about the tree before the erase; this is what it means after
      the node has been unlinked. */
  lemma StuckGuard(p: Path, t: Tree)
    requires t.Fork? && Avl(t) && PathAvl(p, Height(t))
    ensures var (q, u) := SwapSpot(p, t);
            EraseStuck(p, t) <==> !q.Top? && RootStuck(q.up, Above(q, Son(u), -1))
  {
    hide Height;
    if t.left.Fork? && t.right.Fork? {
      ExtremeDepth(Beneath(p, t, Substitute(t)), if t.bal < 0 then t.left else t.right, t.bal < 0);
    }
  }

  lemma {:induction false} ExtremeDepth(p: Path, t: Tree, rightmost: bool)
    requires t.Fork? && !p.Top?
    ensures var q := Extreme(p, t, rightmost).0; q == p || (!q.Top? && !q.up.Top?)
    decreases t
  {
    if rightmost && t.right.Fork? {
      ExtremeDepth(InRight(p, t.left, t.node, t.bal), t.right, true);
    } else if !rightmost && t.left.Fork? {
      ExtremeDepth(InLeft(p, t.node, t.bal, t.right), t.left, false);
    }
  }

  /** The smallest tree that shows it: erasing the only node on the left leaves
      the root with an empty left side and a right side of height two. */
  lemma FourNodesTilt(n1: Node, n2: Node, n3: Node, n4: Node)
    ensures
      var right := Fork(Fork(Nil, n3, 0, Nil), n4, -1, Nil);
      var (p, t) := (InLeft(Top, n2, 1, right), Fork(Nil, n1, 0, Nil));
      && Avl(Plug(p, t)) && PathAvl(p, Height(t)) && EraseStuck(p, t)
      && Erase(false, p, t) == Fork(Nil, n2, 2, right) && !Avl(Erase(false, p, t))
  {
    var right := Fork(Fork(Nil, n3, 0, Nil), n4, -1, Nil);
    var (p, t) := (InLeft(Top, n2, 1, right), Fork(Nil, n1, 0, Nil));
    assert Height(right) == 2 && Height(t) == 1;
    assert Avl(right.left) && PathAvl(p, Height(t));
    StuckGuard(p, t);
    EraseRemoves(false, p, t);
  }

  // -------------------------------------------------------- size and height

  function Fib(n: nat): nat { if n < 2 then n else Fib(n - 1) + Fib(n - 2) }

  lemma {:induction false} FibMonotone(m: nat, n: nat)
    requires m <= n
    ensures Fib(m) <= Fib(n)
  {
    if m < n { FibMonotone(m, n - 1); }
  }

  lemma FibStep(n: nat)
    ensures Fib(n + 2) == Fib(n + 1) + Fib(n)
  {
  }

  /** An AVL tree of height h holds at least Fib(h + 2) - 1 nodes. */
  lemma {:induction false} AvlSize(t: Tree)
    requires Avl(t)
    ensures |InOrder(t)| + 1 >= Fib(Height(t) + 2)
  {
    hide Fib, InOrder, Height, Avl;
    if t.Nil? {
      NilSize();
    } else {
      NearlyAvlWithin(t);
      AvlSize(t.left);
      AvlSize(t.right);
      InOrderFork(t);
      HeightFork(t);
      FibSum(Height(t), Height(t.left), Height(t.right));
    }
  }

  lemma NilSize()
    ensures |InOrder(Nil)| == 0 && Height(Nil) == 0 && Fib(2) == 1
  {
  }

  lemma FibSum(h: nat, l: nat, r: nat)
    requires h == 1 + Max(l, r) && l <= r + 1 && r <= l + 1
    ensures Fib(h + 2) <= Fib(l + 2) + Fib(r + 2)
  {
    hide Fib;
    FibStep(h);
    FibMonotone(h, l + 2);
    FibMonotone(h, r + 2);
  }

  /** The bound is sharp: just so many nodes, whichever they are, make this tree of
      height h. */
  function Sparsest(h: nat, s: seq<Node>): Tree
    requires |s| + 1 == Fib(h + 2)
    decreases h
  {
    if h == 0 then Nil
    else if h == 1 then
      assert Fib(3) == 2;
      Fork(Nil, s[0], 0, Nil)
    else
      var k := Fib(h) - 1;
      SparsestSplits(h);
      Fork(Sparsest(h - 2, s[..k]), s[k], 1, Sparsest(h - 1, s[k + 1..]))
  }

  lemma SparsestSplits(h: nat)
    requires h > 1
    ensures Fib(h + 2) == Fib(h + 1) + Fib(h) && Fib(h) >= 1 && Fib(h + 1) >= 1
  {
    FibMonotone(1, h);
    FibMonotone(1, h + 1);
  }

  lemma {:induction false} SparsestSize(h: nat, s: seq<Node>)
    requires |s| + 1 == Fib(h + 2)
    ensures Avl(Sparsest(h, s)) && Height(Sparsest(h, s)) == h && InOrder(Sparsest(h, s)) == s
    decreases h
  {
    if h <= 1 {
      assert Fib(2) == 1 && Fib(3) == 2;
      SparsestSmall(h, s);
    } else {
      hide Fib, InOrder, Height, Avl, Sparsest;
      var k := Fib(h) - 1;
      SparsestSplits(h);
      var (a, n, b) := (s[..k], s[k], s[k + 1..]);
      assert s == a + [n] + b;
      SparsestSize(h - 2, a);
      SparsestSize(h - 1, b);
      SparsestIs(h, a, n, b);
      SparsestFork(Sparsest(h - 2, a), n, Sparsest(h - 1, b));
    }
  }

  lemma SparsestSmall(h: nat, s: seq<Node>)
    requires h <= 1 && |s| == h
    requires |s| + 1 == Fib(h + 2)
    ensures Avl(Sparsest(h, s)) && Height(Sparsest(h, s)) == h && InOrder(Sparsest(h, s)) == s
  {
  }

  lemma SparsestIs(h: nat, a: seq<Node>, n: Node, b: seq<Node>)
    requires h > 1 && |a| + 1 == Fib(h) && |b| + 1 == Fib(h + 1)
    ensures |a + [n] + b| + 1 == Fib(h + 2)
    ensures Sparsest(h, a + [n] + b) == Fork(Sparsest(h - 2, a), n, 1, Sparsest(h - 1, b))
  {
    var s := a + [n] + b;
    SparsestSplits(h);
    assert s[..|a|] == a && s[|a|] == n && s[|a| + 1..] == b;
  }

  lemma SparsestFork(l: Tree, n: Node, r: Tree)
    requires Avl(l) && Avl(r) && Height(r) == Height(l) + 1
    ensures Avl(Fork(l, n, 1, r)) && Height(Fork(l, n, 1, r)) == Height(r) + 1
    ensures InOrder(Fork(l, n, 1, r)) == InOrder(l) + [n] + InOrder(r)
  {
  }

  /** Below 14930351 nodes no path is longer than the 32 entries of an iterator. */
  lemma ShallowEnough(t: Tree)
    requires Avl(t) && |InOrder(t)| < 14930351
    ensures Height(t) <= 33
  {
    AvlSize(t);
    if Height(t) > 33 {
      FibMonotone(36, Height(t) + 2);
      Fib36();
    }
  }

  /** A longest path of a tree, down to its last node. */
  lemma DeepestNode(t: Tree) returns (p: Path, u: Tree)
    requires t.Fork?
    ensures u.Fork? && Plug(p, u) == t && |Ancestors(p)| + 1 == Height(t)
  {
    hide Plug, Ancestors;
    var steps := Deepen(Top, t);
    p, u := steps.0, steps.1;
    PlugTop(t);
  }

  /** Goes on from `t` at the end of the path `p` into the higher subtrees. */
  lemma {:induction false} Deepen(p: Path, t: Tree) returns (spot: (Path, Tree))
    requires t.Fork?
    ensures spot.1.Fork? && Plug(spot.0, spot.1) == Plug(p, t)
    ensures |Ancestors(spot.0)| + 1 == |Ancestors(p)| + Height(t)
    decreases t
  {
    if Height(t) == 1 {
      spot := (p, t);
    } else if Height(t.left) >= Height(t.right) {
      spot := Deepen(InLeft(p, t.node, t.bal, t.right), t.left);
    } else {
      spot := Deepen(InRight(p, t.left, t.node, t.bal), t.right);
    }
  }

  lemma PlugTop(t: Tree)
    ensures Plug(Top, t) == t && Ancestors(Top) == []
  {
  }

  /** The bound is sharp for the iterator too: with 14930351 nodes, whichever they are,
      there is an AVL tree with a node that has 33 ancestors, one more than it can keep. */
  lemma TooDeep(s: seq<Node>) returns (t: Tree, p: Path, u: Tree)
    requires |s| == 14930351
    ensures Avl(t) && InOrder(t) == s && u.Fork? && Plug(p, u) == t && |Ancestors(p)| == 33
  {
    Fib36();
    hide Fib, Sparsest, Avl, InOrder, Plug, Ancestors, Height;
    SparsestSize(34, s);
    t := Sparsest(34, s);
    HeightNil();
    p, u := DeepestNode(t);
  }

  lemma HeightNil()
    ensures Height(Nil) == 0
  {
  }

  lemma Fib36()
    ensures Fib(36) == 14930352
  {
    assert Fib(4) == 3 && Fib(5) == 5;
    assert Fib(6) == 8 && Fib(7) == 13;
    assert Fib(8) == 21 && Fib(9) == 34;
    assert Fib(10) == 55 && Fib(11) == 89;
    assert Fib(12) == 144 && Fib(13) == 233;
    assert Fib(14) == 377 && Fib(15) == 610;
    assert Fib(16) == 987 && Fib(17) == 1597;
    assert Fib(18) == 2584 && Fib(19) == 4181;
    assert Fib(20) == 6765 && Fib(21) == 10946;
    assert Fib(22) == 17711 && Fib(23) == 28657;
    assert Fib(24) == 46368 && Fib(25) == 75025;
    assert Fib(26) == 121393 && Fib(27) == 196418;
    assert Fib(28) == 317811 && Fib(29) == 514229;
    assert Fib(30) == 832040 && Fib(31) == 1346269;
    assert Fib(32) == 2178309 && Fib(33) == 3524578;
    assert Fib(34) == 5702887 && Fib(35) == 9227465;
  }

  // -------------------------------------------------------------- key order

  ghost predicate Sorted(s: seq<Node>) {
    forall i, j | 0 <= i < j < |s| :: s[i].key <= s[j].key
  }

  lemma SortedAround(a: seq<Node>, n: Node, b: seq<Node>)
    ensures Sorted(a + [n] + b) <==>
            && Sorted(a) && Sorted(b)
            && (forall x <- a :: x.key <= n.key) && (forall x <- b :: n.key <= x.key)
  {
    if Sorted(a + [n] + b) {
      SortedParts(a, n, b);
    } else if Sorted(a) && Sorted(b) && (forall x <- a :: x.key <= n.key) && (forall x <- b :: n.key <= x.key) {
      SortedJoin(a, n, b);
    }
  }

  lemma SortedParts(a: seq<Node>, n: Node, b: seq<Node>)
    requires Sorted(a + [n] + b)
    ensures Sorted(a) && Sorted(b)
    ensures (forall x <- a :: x.key <= n.key) && (forall x <- b :: n.key <= x.key)
  {
    var (s, k) := (a + [n] + b, |a| + 1);
    forall i, j | 0 <= i < j < |a| ensures a[i].key <= a[j].key {
      assert s[i] == a[i] && s[j] == a[j];
    }
    forall i, j | 0 <= i < j < |b| ensures b[i].key <= b[j].key {
      assert s[k + i] == b[i] && s[k + j] == b[j];
    }
    forall x | x in a ensures x.key <= n.key {
      var i :| 0 <= i < |a| && a[i] == x;
      assert s[i] == x && s[|a|] == n;
    }
    forall x | x in b ensures n.key <= x.key {
      var i :| 0 <= i < |b| && b[i] == x;
      assert s[k + i] == x && s[|a|] == n;
    }
  }

  lemma SortedJoin(a: seq<Node>, n: Node, b: seq<Node>)
    requires Sorted(a) && Sorted(b)
    requires (forall x <- a :: x.key <= n.key) && (forall x <- b :: n.key <= x.key)
    ensures Sorted(a + [n] + b)
  {
    var s := a + [n] + b;
    forall i, j | 0 <= i < j < |s| ensures s[i].key <= s[j].key {
      assert i < |a| ==> s[i] in a;
      assert i > |a| ==> s[i] == b[i - |a| - 1] && s[i] in b;
      assert j < |a| ==> s[j] in a;
      assert j > |a| ==> s[j] == b[j - |a| - 1] && s[j] in b;
    }
  }

  /** `x` put in front of the first node whose key is not smaller. */
  function Inserted(s: seq<Node>, x: Node): seq<Node> {
    if s == [] || x.key <= s[0].key then [x] + s else [s[0]] + Inserted(s[1..], x)
  }

  lemma {:induction false} InsertedBetween(a: seq<Node>, b: seq<Node>, x: Node)
    requires forall n <- a :: n.key < x.key
    requires forall n <- b :: x.key <= n.key
    ensures Inserted(a + b, x) == a + [x] + b
  {
    if a == [] {
      assert a + b == b;
    } else {
      InsertedBetween(a[1..], b, x);
      assert (a + b)[1..] == a[1..] + b;
    }
  }

  /** A node with this key belongs at the end of the path `p`. */
  ghost predicate Slot(p: Path, key: int, strict: bool) {
    && (forall n <- Before(p) :: n.key < key)
    && (forall n <- After(p) :: key <= n.key && (strict ==> key < n.key))
  }

  /** In a sorted tree a node separates what is left of it from what is right. */
  lemma NodeSeparates(p: Path, t: Tree)
    requires t.Fork? && Sorted(InOrder(Plug(p, t)))
    ensures forall n <- Before(p) + InOrder(t.left) :: n.key <= t.node.key
    ensures forall n <- InOrder(t.right) + After(p) :: t.node.key <= n.key
  {
    hide InOrder, Before, After, Plug, Sorted;
    PlugInOrder(p, t);
    InOrderFork(t);
    assert Before(p) + InOrder(t) + After(p)
        == (Before(p) + InOrder(t.left)) + [t.node] + (InOrder(t.right) + After(p));
    SortedAround(Before(p) + InOrder(t.left), t.node, InOrder(t.right) + After(p));
  }

  lemma SlotLeft(p: Path, t: Tree, key: int, strict: bool)
    requires t.Fork? && Sorted(InOrder(Plug(p, t))) && Slot(p, key, strict)
    requires key <= t.node.key && (strict ==> key < t.node.key)
    ensures Slot(InLeft(p, t.node, t.bal, t.right), key, strict)
  {
    hide InOrder, Before, After, Plug, Sorted;
    NodeSeparates(p, t);
    AfterLeft(InLeft(p, t.node, t.bal, t.right));
  }

  lemma SlotRight(p: Path, t: Tree, key: int, strict: bool)
    requires t.Fork? && Sorted(InOrder(Plug(p, t))) && Slot(p, key, strict)
    requires t.node.key < key
    ensures Slot(InRight(p, t.left, t.node, t.bal), key, strict)
  {
    hide InOrder, Before, After, Plug, Sorted;
    NodeSeparates(p, t);
    BeforeRight(InRight(p, t.left, t.node, t.bal));
  }

  lemma SortedApart(a: seq<Node>, b: seq<Node>)
    requires Sorted(a + b)
    ensures Sorted(a) && Sorted(b)
  {
    assert forall i | 0 <= i < |a| :: (a + b)[i] == a[i];
    assert forall i | 0 <= i < |b| :: (a + b)[|a| + i] == b[i];
  }

  lemma InsertedSorted(a: seq<Node>, b: seq<Node>, x: Node)
    requires Sorted(a + b)
    requires (forall n <- a :: n.key < x.key) && (forall n <- b :: x.key <= n.key)
    ensures Inserted(a + b, x) == a + [x] + b && Sorted(a + [x] + b)
  {
    InsertedBetween(a, b, x);
    SortedApart(a, b);
    SortedAround(a, x, b);
  }

  lemma PlugNil(p: Path)
    ensures InOrder(Plug(p, Nil)) == Before(p) + After(p)
  {
    PlugInOrder(p, Nil);
    assert InOrder(Nil) == [];
  }

  /** `s` without the first occurrence of `x`. */
  function Without(s: seq<Node>, x: Node): seq<Node> {
    if s == [] then [] else if s[0] == x then s[1..] else [s[0]] + Without(s[1..], x)
  }

  lemma {:induction false} WithoutBetween(a: seq<Node>, x: Node, b: seq<Node>)
    requires x !in a
    ensures Without(a + [x] + b, x) == a + b
  {
    var s := a + [x] + b;
    if a == [] {
      assert s[1..] == a + b;
    } else {
      WithoutBetween(a[1..], x, b);
      assert s[0] == a[0] && s[1..] == a[1..] + [x] + b;
      assert [a[0]] + (a[1..] + b) == a + b;
    }
  }

  lemma SortedWithout(a: seq<Node>, x: Node, b: seq<Node>)
    requires Sorted(a + [x] + b)
    ensures Sorted(a + b)
  {
    var s := a + [x] + b;
    forall i, j | 0 <= i < j < |a + b| ensures (a + b)[i].key <= (a + b)[j].key {
      var i', j' := if i < |a| then i else i + 1, if j < |a| then j else j + 1;
      assert s[i'] == (a + b)[i] && s[j'] == (a + b)[j];
    }
  }
}
