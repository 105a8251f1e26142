/** Which fields the nodes of a shape hold, node by node, and how rewriting a few of them changes the
    shape: rotations, taking a node out, putting its successor in its place. */
module LinkedShape {
  import opened Shape

  class Node {
    var p: Node?
    var l: Node?
    var r: Node?
    var color: Color
    var key: int

    constructor (k: int)
      ensures p == null && l == null && r == null && color == Black && key == k
    {
      p, l, r, color, key := null, null, null, Black, k;
    }
  }

  /** What the fields of one node hold. */
  datatype Links = Links(p: Node?, l: Node?, r: Node?, color: Color, key: int)

  ghost function RootOf(t: Tree<Node>): Node? {
    if t.Leaf? then null else t.node
  }

  /** The parent that a subtree filling the hole of `c` must have. */
  ghost function HoleParent(c: Ctx<Node>): Node? {
    if c.Top? then null else c.node
  }

  /** What the fields of `n` hold when the nodes of `t` form a tree hanging below `parent`. */
  ghost function LinksAt(t: Tree<Node>, parent: Node?, n: Node): Links
    requires n in Nodes(t)
  {
    if n == t.node then Links(parent, RootOf(t.left), RootOf(t.right), t.color, t.key)
    else if n in Nodes(t.left) then LinksAt(t.left, t.node, n)
    else LinksAt(t.right, t.node, n)
  }

  ghost function CtxLinksAt(c: Ctx<Node>, at: Node?, n: Node): Links
    requires n in CtxNodes(c)
  {
    match c
    case InLeft(up, x, co, k, r) =>
      if n == x then Links(HoleParent(up), at, RootOf(r), co, k)
      else if n in Nodes(r) then LinksAt(r, x, n)
      else CtxLinksAt(up, x, n)
    case InRight(l, x, co, k, up) =>
      if n == x then Links(HoleParent(up), RootOf(l), at, co, k)
      else if n in Nodes(l) then LinksAt(l, x, n)
      else CtxLinksAt(up, x, n)
  }

  lemma {:induction false} PlugLinks(c: Ctx<Node>, t: Tree<Node>, n: Node)
    requires NoDup(Plug(c, t))
    ensures n in Nodes(Plug(c, t)) <==> n in Nodes(t) || n in CtxNodes(c)
    ensures n in Nodes(t) ==>
      n !in CtxNodes(c) && n in Nodes(Plug(c, t)) && LinksAt(Plug(c, t), null, n) == LinksAt(t, HoleParent(c), n)
    ensures n in CtxNodes(c) ==> n in Nodes(Plug(c, t)) && LinksAt(Plug(c, t), null, n) == CtxLinksAt(c, RootOf(t), n)
    decreases c
  {
    PlugNoDup(c, t);
    match c
    case Top =>
    case InLeft(up, x, co, k, r) =>
      PlugLinks(up, Fork(t, x, co, k, r), n);
    case InRight(l, x, co, k, up) =>
      PlugLinks(up, Fork(l, x, co, k, t), n);
  }

  // ------------------------------------------------------------------ rotations on shapes

  ghost function RotL(t: Tree<Node>): Tree<Node>
    requires t.Fork? && t.right.Fork?
  {
    var y := t.right;
    Fork(Fork(t.left, t.node, t.color, t.key, y.left), y.node, y.color, y.key, y.right)
  }

  ghost function RotR(t: Tree<Node>): Tree<Node>
    requires t.Fork? && t.left.Fork?
  {
    var y := t.left;
    Fork(y.left, y.node, y.color, y.key, Fork(y.right, t.node, t.color, t.key, t.right))
  }

  lemma LrotLinks(t: Tree<Node>, q: Node?, n: Node)
    requires t.Fork? && t.right.Fork? && NoDup(t)
    requires n in Nodes(t)
    ensures NoDup(RotL(t)) && Nodes(RotL(t)) == Nodes(t)
    ensures var x, y, b := t.node, t.right.node, RootOf(t.right.left);
      && (n == x ==> LinksAt(t, q, n) == Links(q, RootOf(t.left), y, t.color, t.key))
      && (n == x ==> LinksAt(RotL(t), q, n) == LinksAt(t, q, n).(p := y, r := b))
      && (n == y ==> LinksAt(t, q, n) == Links(x, b, RootOf(t.right.right), t.right.color, t.right.key))
      && (n == y ==> LinksAt(RotL(t), q, n) == LinksAt(t, q, n).(p := q, l := x))
      && (n == b ==> LinksAt(RotL(t), q, n) == LinksAt(t, q, n).(p := x))
      && (n !in {x, y, b} ==> LinksAt(RotL(t), q, n) == LinksAt(t, q, n))
  {
    var y, b, t' := t.right, t.right.left, RotL(t);
    if n in Nodes(y) {
      assert LinksAt(t, q, n) == LinksAt(y, t.node, n);
    }
    if n in Nodes(t'.left) {
      assert LinksAt(t', q, n) == LinksAt(t'.left, y.node, n);
    }
    if n in Nodes(b) {
      assert LinksAt(y, t.node, n) == LinksAt(b, y.node, n);
      assert LinksAt(t'.left, y.node, n) == LinksAt(b, t.node, n);
    }
  }

  lemma RrotLinks(t: Tree<Node>, q: Node?, n: Node)
    requires t.Fork? && t.left.Fork? && NoDup(t)
    requires n in Nodes(t)
    ensures NoDup(RotR(t)) && Nodes(RotR(t)) == Nodes(t)
    ensures var x, y, b := t.node, t.left.node, RootOf(t.left.right);
      && (n == x ==> LinksAt(t, q, n) == Links(q, y, RootOf(t.right), t.color, t.key))
      && (n == x ==> LinksAt(RotR(t), q, n) == LinksAt(t, q, n).(p := y, l := b))
      && (n == y ==> LinksAt(t, q, n) == Links(x, RootOf(t.left.left), b, t.left.color, t.left.key))
      && (n == y ==> LinksAt(RotR(t), q, n) == LinksAt(t, q, n).(p := q, r := x))
      && (n == b ==> LinksAt(RotR(t), q, n) == LinksAt(t, q, n).(p := x))
      && (n !in {x, y, b} ==> LinksAt(RotR(t), q, n) == LinksAt(t, q, n))
  {
    var y, b, t' := t.left, t.left.right, RotR(t);
    if n in Nodes(y) {
      assert LinksAt(t, q, n) == LinksAt(y, t.node, n);
    }
    if n in Nodes(t'.right) {
      assert LinksAt(t', q, n) == LinksAt(t'.right, y.node, n);
    }
    if n in Nodes(b) {
      assert LinksAt(y, t.node, n) == LinksAt(b, y.node, n);
      assert LinksAt(t'.right, y.node, n) == LinksAt(b, t.node, n);
    }
  }

  /** Which subtree fills the hole matters to the rest of the tree only at the hole's parent. */
  lemma RefillLinks(c: Ctx<Node>, t: Tree<Node>, t': Tree<Node>, n: Node)
    requires NoDup(Plug(c, t)) && NoDup(Plug(c, t')) && n in CtxNodes(c)
    ensures n in Nodes(Plug(c, t)) && n in Nodes(Plug(c, t')) && n !in Nodes(t) && n !in Nodes(t')
    ensures var o, o' := LinksAt(Plug(c, t), null, n), LinksAt(Plug(c, t'), null, n);
      && (n != HoleParent(c) ==> o' == o)
      && (n == HoleParent(c) && c.InLeft? ==> o.l == RootOf(t) && o' == o.(l := RootOf(t')))
      && (n == HoleParent(c) && c.InRight? ==> o.r == RootOf(t) && o' == o.(r := RootOf(t')))
      && (n == HoleParent(c) && c.InRight? && t.Fork? ==> o.l != RootOf(t))
      && (n == HoleParent(c) && c.InLeft? && t.Fork? ==> o.r != RootOf(t))
  {
    PlugNoDup(c, t);
    PlugNoDup(c, t');
    PlugLinks(c, t, n);
    PlugLinks(c, t', n);
    CtxRefill(c, RootOf(t), RootOf(t'), n);
  }

  lemma CtxRefill(c: Ctx<Node>, x: Node?, y: Node?, n: Node)
    requires n in CtxNodes(c) && (x != null ==> x !in CtxNodes(c))
    ensures var o, o' := CtxLinksAt(c, x, n), CtxLinksAt(c, y, n);
      && (n != HoleParent(c) ==> o' == o)
      && (n == HoleParent(c) && c.InLeft? ==> o.l == x && o' == o.(l := y))
      && (n == HoleParent(c) && c.InRight? ==> o.r == x && o' == o.(r := y))
      && (n == HoleParent(c) && c.InRight? && x != null ==> o.l != x)
      && (n == HoleParent(c) && c.InLeft? && x != null ==> o.r != x)
  {
  }

  lemma {:induction false} PlugRoot(c: Ctx<Node>, t: Tree<Node>, t': Tree<Node>)
    ensures c.Top? ==> Plug(c, t) == t
    ensures !c.Top? ==> RootOf(Plug(c, t)) == RootOf(Plug(c, t'))
    decreases c
  {
    match c
    case Top =>
    case InLeft(up, x, co, k, r) => PlugRoot(up, Fork(t, x, co, k, r), Fork(t', x, co, k, r));
    case InRight(l, x, co, k, up) => PlugRoot(up, Fork(l, x, co, k, t), Fork(l, x, co, k, t'));
  }

  lemma {:induction false} PlugRootInCtx(c: Ctx<Node>, t: Tree<Node>)
    requires !c.Top?
    ensures Plug(c, t).Fork? && Plug(c, t).node in CtxNodes(c)
    decreases c
  {
    if !c.up.Top? {
      PlugRootInCtx(c.up, OneUp(c, t));
    }
  }

  lemma RefillNoDup(c: Ctx<Node>, t: Tree<Node>, t': Tree<Node>)
    requires NoDup(Plug(c, t)) && NoDup(t') && Nodes(t') <= Nodes(t)
    ensures NoDup(Plug(c, t')) && Nodes(Plug(c, t')) == Nodes(Plug(c, t)) - (Nodes(t) - Nodes(t'))
  {
    PlugNoDup(c, t);
    PlugNoDup(c, t');
    PlugNodes(c, t);
    PlugNodes(c, t');
  }

  /** A left rotation inside a tree, seen from any node of the tree. */
  lemma {:induction false} LrotWhole(c: Ctx<Node>, t: Tree<Node>, n: Node)
    requires NoDup(Plug(c, t)) && t.Fork? && t.right.Fork? && n in Nodes(Plug(c, t))
    ensures NoDup(Plug(c, RotL(t))) && Nodes(Plug(c, RotL(t))) == Nodes(Plug(c, t))
    ensures var x, y, b, q := t.node, t.right.node, RootOf(t.right.left), HoleParent(c);
      var m, m' := LinksAt(Plug(c, t), null, n), LinksAt(Plug(c, RotL(t)), null, n);
      && (n == x ==> m == Links(q, RootOf(t.left), y, t.color, t.key) && m' == m.(p := y, r := b))
      && (n == y ==> m == Links(x, b, RootOf(t.right.right), t.right.color, t.right.key) && m' == m.(p := q, l := x))
      && (n == b ==> m' == m.(p := x))
      && (n == q ==> m' == if m.l == x then m.(l := y) else m.(r := y))
      && (n !in {x, y, b, q} ==> m' == m)
  {
    var t' := RotL(t);
    PlugNoDup(c, t);
    LrotLinks(t, HoleParent(c), t.node);
    RefillNoDup(c, t, t');
    PlugLinks(c, t, n);
    if n in Nodes(t) {
      PlugLinks(c, t', n);
      LrotLinks(t, HoleParent(c), n);
    } else {
      RefillLinks(c, t, t', n);
    }
  }

  /** A right rotation inside a tree, seen from any node of the tree. */
  lemma {:induction false} RrotWhole(c: Ctx<Node>, t: Tree<Node>, n: Node)
    requires NoDup(Plug(c, t)) && t.Fork? && t.left.Fork? && n in Nodes(Plug(c, t))
    ensures NoDup(Plug(c, RotR(t))) && Nodes(Plug(c, RotR(t))) == Nodes(Plug(c, t))
    ensures var x, y, b, q := t.node, t.left.node, RootOf(t.left.right), HoleParent(c);
      var m, m' := LinksAt(Plug(c, t), null, n), LinksAt(Plug(c, RotR(t)), null, n);
      && (n == x ==> m == Links(q, y, RootOf(t.right), t.color, t.key) && m' == m.(p := y, l := b))
      && (n == y ==> m == Links(x, RootOf(t.left.left), b, t.left.color, t.left.key) && m' == m.(p := q, r := x))
      && (n == b ==> m' == m.(p := x))
      && (n == q ==> m' == if m.l == x then m.(l := y) else m.(r := y))
      && (n !in {x, y, b, q} ==> m' == m)
  {
    var t' := RotR(t);
    PlugNoDup(c, t);
    RrotLinks(t, HoleParent(c), t.node);
    RefillNoDup(c, t, t');
    PlugLinks(c, t, n);
    if n in Nodes(t) {
      PlugLinks(c, t', n);
      RrotLinks(t, HoleParent(c), n);
    } else {
      RefillLinks(c, t, t', n);
    }
  }

  /** A fork with at most one child, and that child. */
  ghost predicate OneChild(t: Tree<Node>, x: Tree<Node>) {
    t.Fork? && (if t.left.Leaf? then x == t.right else t.right.Leaf? && x == t.left)
  }

  /** Taking out a node with at most one child, seen from any other node. */
  lemma {:induction false} SpliceWhole(c: Ctx<Node>, t: Tree<Node>, x: Tree<Node>, n: Node)
    requires NoDup(Plug(c, t)) && OneChild(t, x) && n in Nodes(Plug(c, t)) && n != t.node
    ensures NoDup(Plug(c, x)) && Nodes(Plug(c, x)) == Nodes(Plug(c, t)) - {t.node}
    ensures var q := HoleParent(c);
      var m, m' := LinksAt(Plug(c, t), null, n), LinksAt(Plug(c, x), null, n);
      && (n == RootOf(x) ==> n != q && m' == m.(p := q))
      && (n == q && c.InLeft? ==> m.l == t.node && m' == m.(l := RootOf(x)))
      && (n == q && c.InRight? ==> m.l != t.node && m.r == t.node && m' == m.(r := RootOf(x)))
      && (n != RootOf(x) && n != q ==> m' == m)
  {
    PlugNoDup(c, t);
    RefillNoDup(c, t, x);
    PlugLinks(c, t, n);
    if n in Nodes(t) {
      PlugLinks(c, x, n);
    } else {
      RefillLinks(c, t, x, n);
    }
  }

  lemma SpliceRoot(c: Ctx<Node>, t: Tree<Node>, x: Tree<Node>)
    requires NoDup(Plug(c, t)) && OneChild(t, x)
    ensures NoDup(Plug(c, x)) && Nodes(Plug(c, x)) == Nodes(Plug(c, t)) - {t.node}
    ensures t.node in Nodes(Plug(c, t)) && t.node !in CtxNodes(c) && t.node !in Nodes(x)
    ensures LinksAt(Plug(c, t), null, t.node) == Links(HoleParent(c), RootOf(t.left), RootOf(t.right), t.color, t.key)
    ensures RootOf(Plug(c, t)) == t.node <==> c.Top?
    ensures RootOf(Plug(c, x)) == if c.Top? then RootOf(x) else RootOf(Plug(c, t))
  {
    PlugNoDup(c, t);
    PlugLinks(c, t, t.node);
    RefillNoDup(c, t, x);
    PlugRoot(c, t, x);
    PlugRoot(c, x, t);
    if !c.Top? {
      PlugRootInCtx(c, t);
    }
  }

  /** Another node takes the place, the colour and the children of the fork `t`. */
  lemma {:induction false} ReplaceWhole(c: Ctx<Node>, t: Tree<Node>, y: Node, k: int, n: Node)
    requires t.Fork? && NoDup(Plug(c, t)) && y !in Nodes(Plug(c, t))
    requires n == y || (n in Nodes(Plug(c, t)) && n != t.node)
    ensures var t' := t.(node := y, key := k);
      var q := HoleParent(c);
      && NoDup(Plug(c, t')) && Nodes(Plug(c, t')) == Nodes(Plug(c, t)) - {t.node} + {y}
      && (n == y ==> LinksAt(Plug(c, t'), null, n) == Links(q, RootOf(t.left), RootOf(t.right), t.color, k))
      && (n != y ==>
          var m, m' := LinksAt(Plug(c, t), null, n), LinksAt(Plug(c, t'), null, n);
          && (n == RootOf(t.left) || n == RootOf(t.right) ==> n != q && m' == m.(p := y))
          && (n == q && c.InLeft? ==> m.l == t.node && m' == m.(l := y))
          && (n == q && c.InRight? ==> m.l != t.node && m.r == t.node && m' == m.(r := y))
          && (n != RootOf(t.left) && n != RootOf(t.right) && n != q ==> m' == m))
  {
    var t' := t.(node := y, key := k);
    PlugNoDup(c, t);
    PlugNodes(c, t);
    PlugNoDup(c, t');
    PlugNodes(c, t');
    PlugLinks(c, t', n);
    if n != y {
      PlugLinks(c, t, n);
      if n in CtxNodes(c) {
        RefillLinks(c, t, t', n);
      }
    }
  }

  /** What the removal of a node with two children does: its successor `s.node`, the leftmost
      node of the right subtree, moves up into its place. */
  ghost predicate Successor(t: Tree<Node>, inner: Ctx<Node>, s: Tree<Node>) {
    t.Fork? && t.right == Plug(inner, s) && s.Fork? && s.left.Leaf? && Before(inner) == []
  }

  ghost function Promoted(t: Tree<Node>, inner: Ctx<Node>, s: Tree<Node>): Tree<Node>
    requires t.Fork? && s.Fork?
  {
    Fork(t.left, s.node, t.color, s.key, Plug(inner, s.right))
  }

  /** The context of the successor's right child before and after the move. */
  ghost function SuccCtx(c: Ctx<Node>, t: Tree<Node>, inner: Ctx<Node>, n: Node, k: int): Ctx<Node>
    requires t.Fork?
  {
    Compose(inner, InRight(t.left, n, t.color, k, c))
  }

  /** The move in two stages: the successor is taken out, then put in the node's place. */
  lemma PromoteStages(c: Ctx<Node>, t: Tree<Node>, inner: Ctx<Node>, s: Tree<Node>)
    requires NoDup(Plug(c, t)) && Successor(t, inner, s)
    ensures var c1, t1 := SuccCtx(c, t, inner, t.node, t.key), t.(right := Plug(inner, s.right));
      && Plug(c1, s) == Plug(c, t) && Plug(c1, s.right) == Plug(c, t1)
      && NoDup(Plug(c, t1)) && Nodes(Plug(c, t1)) == Nodes(Plug(c, t)) - {s.node}
      && s.node in Nodes(Plug(c, t)) && t.node in Nodes(Plug(c, t1))
      && t1.(node := s.node, key := s.key) == Promoted(t, inner, s)
      && HoleParent(c1) == (if inner.Top? then t.node else inner.node)
      && (if inner.Top? then c1.InRight? else inner.InLeft? && c1.InLeft?)
      && RootOf(t1.right) == (if inner.Top? then RootOf(s.right) else RootOf(t.right))
      && HoleParent(c) != s.node && HoleParent(c) != t.node && RootOf(t.left) != s.node && s.node != t.node
  {
    var cb := InRight(t.left, t.node, t.color, t.key, c);
    PlugCompose(inner, cb, s);
    PlugCompose(inner, cb, s.right);
    SpliceRoot(Compose(inner, cb), s, s.right);
    PlugRoot(inner, s, s.right);
    PlugNoDup(c, t);
    PlugNodes(c, t.(right := Plug(inner, s.right)));
    PlugNodes(inner, s);
  }

  lemma RightChildLinks(c: Ctx<Node>, s: Tree<Node>)
    requires s.Fork? && s.right.Fork? && NoDup(Plug(c, s))
    ensures s.right.node in Nodes(Plug(c, s)) && LinksAt(Plug(c, s), null, s.right.node).p == s.node
  {
    PlugNoDup(c, s);
    PlugLinks(c, s, s.right.node);
  }

  /** The move seen from any node, when the successor is the right child itself ... */
  lemma {:induction false} PromoteNear(c: Ctx<Node>, t: Tree<Node>, s: Tree<Node>, n: Node)
    requires NoDup(Plug(c, t)) && Successor(t, Top, s) && n in Nodes(Plug(c, t)) && n != t.node
    ensures var q, y, t' := HoleParent(c), s.node, Promoted(t, Top, s);
      && NoDup(Plug(c, t')) && Nodes(Plug(c, t')) == Nodes(Plug(c, t)) - {t.node}
      && var m, m' := LinksAt(Plug(c, t), null, n), LinksAt(Plug(c, t'), null, n);
        && (n == y ==> m' == Links(q, RootOf(t.left), RootOf(s.right), t.color, s.key))
        && (n == RootOf(t.left) ==> m' == m.(p := y))
        && (n == q && c.InLeft? ==> m.l == t.node && m' == m.(l := y))
        && (n == q && c.InRight? ==> m.l != t.node && m' == m.(r := y))
        && (n != y && n != RootOf(t.left) && n != q ==> m' == m)
  {
    PromoteStages(c, t, Top, s);
    ReplaceWhole(c, t.(right := s.right), s.node, s.key, n);
    if n != s.node {
      SpliceWhole(SuccCtx(c, t, Top, t.node, t.key), s, s.right, n);
      if n == RootOf(s.right) {
        RightChildLinks(SuccCtx(c, t, Top, t.node, t.key), s);
      }
    }
  }

  /** ... and when it lies deeper. */
  lemma {:induction false} PromoteFar(c: Ctx<Node>, t: Tree<Node>, inner: Ctx<Node>, s: Tree<Node>, n: Node)
    requires NoDup(Plug(c, t)) && Successor(t, inner, s) && !inner.Top? && n in Nodes(Plug(c, t)) && n != t.node
    ensures var q, y, x, t' := HoleParent(c), s.node, RootOf(s.right), Promoted(t, inner, s);
      && NoDup(Plug(c, t')) && Nodes(Plug(c, t')) == Nodes(Plug(c, t)) - {t.node}
      && var m, m' := LinksAt(Plug(c, t), null, n), LinksAt(Plug(c, t'), null, n);
        && (n == y ==> m' == Links(q, RootOf(t.left), RootOf(t.right), t.color, s.key))
        && (n == RootOf(t.left) ==> n != inner.node && n != x && m' == m.(p := y))
        && (n == RootOf(t.right) ==> n != x && m' == if n == inner.node then m.(p := y, l := x) else m.(p := y))
        && (n == inner.node && n != RootOf(t.right) ==> n != x && m' == m.(l := x))
        && (n == x ==> m' == m.(p := inner.node))
        && (n == q && c.InLeft? ==> m.l == t.node && m' == m.(l := y))
        && (n == q && c.InRight? ==> m.l != t.node && m' == m.(r := y))
        && (n !in {y, RootOf(t.left), RootOf(t.right), inner.node, x, q} ==> m' == m)
  {
    PromoteStages(c, t, inner, s);
    PromoteApart(c, t, inner, s);
    ReplaceWhole(c, t.(right := Plug(inner, s.right)), s.node, s.key, n);
    if n != s.node {
      SpliceWhole(SuccCtx(c, t, inner, t.node, t.key), s, s.right, n);
    }
  }

  /** The nodes a promotion touches are in the tree and differ. */
  lemma PromoteApart(c: Ctx<Node>, t: Tree<Node>, inner: Ctx<Node>, s: Tree<Node>)
    requires NoDup(Plug(c, t)) && Successor(t, inner, s)
    ensures var q, x, l, r := HoleParent(c), RootOf(s.right), RootOf(t.left), RootOf(t.right);
      var y, near := s.node, inner.Top?;
      var yp := if near then t.node else inner.node;
      var all := Nodes(Plug(c, t));
      && {t.node, y, yp} <= all && t.node != y && yp != y
      && r != null && r in all && r != t.node && (near <==> r == y) && (near <==> yp == t.node)
      && (l != null ==> l in all && l !in {t.node, y, r, yp})
      && (x != null ==> x in all && x !in {t.node, y, r, yp, l})
      && (q != null ==> q in all && q !in {t.node, y, r, yp, l, x})
  {
    PlugNoDup(c, t);
    PlugNodes(c, t);
    PlugNoDup(inner, s);
    PlugNodes(inner, s);
    if !inner.Top? {
      PlugRootInCtx(inner, s);
    }
  }

  lemma PromoteNodes(c: Ctx<Node>, t: Tree<Node>, inner: Ctx<Node>, s: Tree<Node>)
    requires NoDup(Plug(c, t)) && Successor(t, inner, s)
    ensures var t' := Promoted(t, inner, s);
      NoDup(Plug(c, t')) && Nodes(Plug(c, t')) == Nodes(Plug(c, t)) - {t.node}
  {
    PromoteStages(c, t, inner, s);
    ReplaceWhole(c, t.(right := Plug(inner, s.right)), s.node, s.key, s.node);
  }

  /** The fields of any remaining node after a promotion, from its fields `m` before. */
  ghost function AfterPromotion(m: Links, n: Node, node: Node, y: Node, x: Node?, yp: Node, at: Links, k: int): Links {
    if n == y then Links(at.p, at.l, if at.r == y then x else at.r, at.color, k)
    else m.(p := if n == at.l || n == at.r then y else if n == x && at.r != y then yp else m.p,
            l := if n == at.p && m.l == node then y else if n == yp then x else m.l,
            r := if n == at.p && m.l != node then y else m.r)
  }

  lemma PromoteWhole(c: Ctx<Node>, t: Tree<Node>, inner: Ctx<Node>, s: Tree<Node>, n: Node)
    requires NoDup(Plug(c, t)) && Successor(t, inner, s) && n in Nodes(Plug(c, t)) && n != t.node
    ensures n in Nodes(Plug(c, Promoted(t, inner, s)))
    ensures
      var was, above := LinksAt(Plug(c, t), null, n), if inner.Top? then t.node else inner.node;
      var at := Links(HoleParent(c), RootOf(t.left), RootOf(t.right), t.color, t.key);
      LinksAt(Plug(c, Promoted(t, inner, s)), null, n) ==
      AfterPromotion(was, n, t.node, s.node, RootOf(s.right), above, at, s.key)
  {
    PromoteApart(c, t, inner, s);
    if inner.Top? {
      PromoteNear(c, t, s, n);
    } else {
      PromoteFar(c, t, inner, s, n);
    }
  }

  /** The focus on a node of a tree. */
  lemma {:induction false} Focus(c: Ctx<Node>, t: Tree<Node>, n: Node) returns (c': Ctx<Node>, t': Tree<Node>)
    requires n in Nodes(t)
    ensures Plug(c', t') == Plug(c, t) && t'.Fork? && t'.node == n
    decreases t
  {
    if n == t.node {
      return c, t;
    } else if n in Nodes(t.left) {
      c', t' := Focus(InLeft(c, t.node, t.color, t.key, t.right), t.left, n);
    } else {
      c', t' := Focus(InRight(t.left, t.node, t.color, t.key, c), t.right, n);
    }
  }

  /** The focus on the item at position `i`. */
  lemma {:induction false} FocusItem(c: Ctx<Node>, t: Tree<Node>, i: nat) returns (c': Ctx<Node>, t': Tree<Node>)
    requires i < |InOrder(t)|
    ensures Plug(c', t') == Plug(c, t) && t'.Fork? && Item(t'.node, t'.key) == InOrder(t)[i]
    ensures |Before(c')| + |InOrder(t'.left)| == |Before(c)| + i
    decreases t
  {
    if i == |InOrder(t.left)| {
      return c, t;
    } else if i < |InOrder(t.left)| {
      c', t' := FocusItem(InLeft(c, t.node, t.color, t.key, t.right), t.left, i);
    } else {
      c', t' := FocusItem(InRight(t.left, t.node, t.color, t.key, c), t.right, i - |InOrder(t.left)| - 1);
    }
  }

  lemma FloorIs(a: seq<Item<Node>>, b: seq<Item<Node>>, k: int)
    requires Sorted(a + b) && (forall e <- a :: e.key < k) && (forall e <- b :: k < e.key)
    ensures a == [] ==> forall e <- a + b :: k < e.key
    ensures a != [] ==> a[|a| - 1] in a + b && (a + b)[|a| - 1] == a[|a| - 1] && a[|a| - 1].key <= k
    ensures a != [] ==> forall e <- a + b :: e.key <= k ==> e.key <= a[|a| - 1].key
  {
    var s := a + b;
    forall e | e in s && e.key <= k && a != []
      ensures e.key <= a[|a| - 1].key
    {
      var j :| 0 <= j < |s| && s[j] == e;
      assert j < |a|;
      assert s[|a| - 1] == a[|a| - 1];
    }
  }

  /** `s'` is `s` without the one item of node `n`. */
  ghost predicate Drops(s: seq<Item<Node>>, s': seq<Item<Node>>, n: Node) {
    exists i :: 0 <= i < |s| && s[i].node == n && s' == s[..i] + s[i + 1..]
  }

  /** Taking out the node just put in gives back the old order. */
  lemma AddsThenDrops(s: seq<Item<Node>>, s': seq<Item<Node>>, s'': seq<Item<Node>>, e: Item<Node>)
    requires Adds(s, s', e) && Drops(s', s'', e.node) && Sorted(s')
    requires forall x <- s' :: x.node == e.node ==> x.key == e.key
    ensures s'' == s
  {
    hide Sorted;
    var i :| 0 <= i <= |s| && s' == s[..i] + [e] + s[i..];
    var j :| 0 <= j < |s'| && s'[j].node == e.node && s'' == s'[..j] + s'[j + 1..];
    CutOut(s, i, e);
    SameIndex(s', i, j, e);
  }

  lemma CutOut(s: seq<Item<Node>>, i: nat, e: Item<Node>)
    requires i <= |s|
    ensures var s' := s[..i] + [e] + s[i..]; s'[i] == e && s'[..i] + s'[i + 1..] == s
  {
  }

  lemma SameIndex(s: seq<Item<Node>>, i: int, j: int, e: Item<Node>)
    requires Sorted(s) && 0 <= i < |s| && 0 <= j < |s| && s[i] == e && s[j].node == e.node
    requires forall x <- s :: x.node == e.node ==> x.key == e.key
    ensures i == j
  {
    assert s[j] in s;
  }

  lemma DropsMiddle(a: seq<Item<Node>>, e: Item<Node>, b: seq<Item<Node>>)
    ensures Drops(a + [e] + b, a + b, e.node)
  {
    var s, i := a + [e] + b, |a|;
    assert s[i] == e && s[..i] == a && s[i + 1..] == b;
  }

  lemma DropsInside(a: seq<Item<Node>>, l: seq<Item<Node>>, e: Item<Node>, r: seq<Item<Node>>, b: seq<Item<Node>>)
    ensures Drops(a + (l + [e] + r) + b, a + (l + r) + b, e.node)
  {
    DropsMiddle(a + l, e, r + b);
    assert a + (l + [e] + r) + b == (a + l) + [e] + (r + b);
    assert a + (l + r) + b == (a + l) + (r + b);
  }

  lemma BypassInOrder(c: Ctx<Node>, t: Tree<Node>, x: Tree<Node>)
    requires OneChild(t, x)
    ensures Drops(InOrder(Plug(c, t)), InOrder(Plug(c, x)), t.node)
  {
    PlugInOrder(c, t);
    PlugInOrder(c, x);
    DropsInside(Before(c), InOrder(t.left), Item(t.node, t.key), InOrder(t.right), After(c));
    assert InOrder(x) == InOrder(t.left) + InOrder(t.right);
  }

  lemma SuccessorFirst(inner: Ctx<Node>, s: Tree<Node>)
    requires s.Fork? && s.left.Leaf? && Before(inner) == []
    ensures InOrder(Plug(inner, s)) == [Item(s.node, s.key)] + InOrder(Plug(inner, s.right))
  {
    PlugInOrder(inner, s);
    PlugInOrder(inner, s.right);
    Associate([Item(s.node, s.key)], InOrder(s.right), After(inner));
    assert [] + InOrder(s.right) == InOrder(s.right);
  }

  lemma Associate<T>(a: seq<T>, b: seq<T>, c: seq<T>)
    ensures a + b + c == a + (b + c)
    ensures [] + ([] + a + b) + c == a + ([] + b + c)
  {
  }

  lemma PromoteInOrder(c: Ctx<Node>, t: Tree<Node>, inner: Ctx<Node>, s: Tree<Node>)
    requires Successor(t, inner, s)
    ensures Drops(InOrder(Plug(c, t)), InOrder(Plug(c, Promoted(t, inner, s))), t.node)
  {
    PlugInOrder(c, t);
    PlugInOrder(c, Promoted(t, inner, s));
    DropsInside(Before(c), InOrder(t.left), Item(t.node, t.key), InOrder(t.right), After(c));
    SuccessorFirst(inner, s);
    Associate(InOrder(t.left), [Item(s.node, s.key)], InOrder(Plug(inner, s.right)));
  }

  lemma DropsSorted(s: seq<Item<Node>>, s': seq<Item<Node>>, n: Node)
    requires Sorted(s) && Drops(s, s', n)
    ensures Sorted(s') && |s'| == |s| - 1
  {
    var i :| 0 <= i < |s| && s[i].node == n && s' == s[..i] + s[i + 1..];
    forall j, k | 0 <= j < k < |s'|
      ensures s'[j].key < s'[k].key
    {
      assert s'[j] == (if j < i then s[j] else s[j + 1]) && s'[k] == (if k < i then s[k] else s[k + 1]);
    }
  }

  /** The nodes below and before the hole, which a children-first walk has left behind. */
  ghost function Behind(c: Ctx<Node>): set<Node> {
    match c
    case Top => {}
    case InLeft(up, _, _, _, _) => Behind(up)
    case InRight(l, _, _, _, up) => Behind(up) + Nodes(l)
  }

  lemma {:induction false} BehindApart(c: Ctx<Node>)
    requires NoDupCtx(c)
    ensures Behind(c) <= CtxNodes(c)
    ensures !c.Top? ==> c.node !in Behind(c)
    ensures c.InLeft? ==> Behind(c) !! Nodes(c.right)
    decreases c
  {
    if !c.Top? {
      BehindApart(c.up);
    }
  }

  lemma {:induction false} BehindDown(inner: Ctx<Node>, c: Ctx<Node>)
    requires Before(inner) == []
    ensures Behind(Compose(inner, c)) == Behind(c) && PostBefore(Compose(inner, c)) == PostBefore(c)
    decreases inner
  {
    if !inner.Top? {
      BehindDown(inner.up, c);
    }
  }

  lemma {:induction false} ComposeTop(c: Ctx<Node>)
    ensures Compose(c, Top) == c
    decreases c
  {
    if !c.Top? {
      ComposeTop(c.up);
    }
  }

  /** Where the removal loop starts after a promotion. */
  lemma PromoteShortage(c: Ctx<Node>, t: Tree<Node>, inner: Ctx<Node>, s: Tree<Node>)
    requires Successor(t, inner, s) && RedBlack(Plug(c, t))
    ensures var hc := SuccCtx(c, t, inner, s.node, s.key);
      && Plug(hc, s.right) == Plug(c, Promoted(t, inner, s))
      && HoleParent(hc) == (if inner.Top? then s.node else inner.node)
      && if s.color == Black then Removing(hc, s.right) else RedBlack(Plug(hc, s.right))
  {
    var c1, hc := SuccCtx(c, t, inner, t.node, t.key), SuccCtx(c, t, inner, s.node, s.key);
    PlugCompose(inner, InRight(t.left, t.node, t.color, t.key, c), s);
    PlugCompose(inner, InRight(t.left, s.node, t.color, s.key, c), s.right);
    Shortage(c1, s, s.right);
    Relabel(inner, t.left, t.color, c, t.node, t.key, s.node, s.key, Bh(s.right) + if s.color == Black then 1 else 0);
    if s.color == Red {
      NoShortage(hc, s.right);
    }
  }

  lemma RotLInOrder(c: Ctx<Node>, t: Tree<Node>)
    requires t.Fork? && t.right.Fork?
    ensures InOrder(Plug(c, RotL(t))) == InOrder(Plug(c, t))
  {
    PlugInOrder(c, t);
    PlugInOrder(c, RotL(t));
    assert InOrder(RotL(t)) == InOrder(t);
  }

  lemma RotRInOrder(c: Ctx<Node>, t: Tree<Node>)
    requires t.Fork? && t.left.Fork?
    ensures InOrder(Plug(c, RotR(t))) == InOrder(Plug(c, t))
  {
    PlugInOrder(c, t);
    PlugInOrder(c, RotR(t));
    assert InOrder(RotR(t)) == InOrder(t);
  }

  /** In a sorted whole, a fork's key separates its two sides. */
  lemma {:induction false} SortedAround(pre: seq<Item<Node>>, t: Tree<Node>, post: seq<Item<Node>>)
    requires t.Fork? && Sorted(pre + InOrder(t) + post)
    ensures Item(t.node, t.key) in InOrder(t)
    ensures forall e <- InOrder(t.left) :: e.key < t.key
    ensures forall e <- InOrder(t.right) :: t.key < e.key
  {
    var s, k := pre + InOrder(t) + post, |pre| + |InOrder(t.left)|;
    assert s[k] == Item(t.node, t.key);
    forall e | e in InOrder(t.left)
      ensures e.key < t.key
    {
      var i :| 0 <= i < |InOrder(t.left)| && InOrder(t.left)[i] == e;
      assert s[|pre| + i] == e;
    }
    forall e | e in InOrder(t.right)
      ensures t.key < e.key
    {
      var i :| 0 <= i < |InOrder(t.right)| && InOrder(t.right)[i] == e;
      assert s[k + 1 + i] == e;
    }
  }

  /** `s'` is `s` with `e` put in somewhere. */
  ghost predicate Adds(s: seq<Item<Node>>, s': seq<Item<Node>>, e: Item<Node>) {
    exists i :: 0 <= i <= |s| && s' == s[..i] + [e] + s[i..]
  }

  lemma SortedInsert(a: seq<Item<Node>>, e: Item<Node>, b: seq<Item<Node>>)
    requires Sorted(a + b)
    requires (forall x <- a :: x.key < e.key) && (forall x <- b :: e.key < x.key)
    ensures Sorted(a + [e] + b)
  {
    var s, s' := a + b, a + [e] + b;
    forall i, j | 0 <= i < j < |s'|
      ensures s'[i].key < s'[j].key
    {
      assert s'[i] == if i < |a| then s[i] else if i == |a| then e else s[i - 1];
      assert s'[j] == if j < |a| then s[j] else if j == |a| then e else s[j - 1];
    }
  }

  lemma AddsSorted(c: Ctx<Node>, e: Item<Node>)
    requires Sorted(InOrder(Plug(c, Leaf)))
    requires (forall x <- Before(c) :: x.key < e.key) && (forall x <- After(c) :: e.key < x.key)
    ensures Sorted(Before(c) + [e] + After(c))
    ensures Adds(InOrder(Plug(c, Leaf)), Before(c) + [e] + After(c), e)
  {
    PlugInOrder(c, Leaf);
    var s, i := Before(c) + After(c), |Before(c)|;
    assert InOrder(Plug(c, Leaf)) == s;
    SortedInsert(Before(c), e, After(c));
    assert s[..i] == Before(c) && s[i..] == After(c);
  }

  lemma SlotSides(c: Ctx<Node>, key: int)
    requires (forall x <- Before(c) :: x.key < key) && (forall x <- After(c) :: key < x.key)
    ensures c.InLeft? ==> key < c.key
    ensures c.InRight? ==> c.key < key
  {
    if c.InLeft? {
      assert After(c)[0] == Item(c.node, c.key);
    } else if c.InRight? {
      assert Before(c)[|Before(c)| - 1] == Item(c.node, c.key);
    }
  }

  ghost function Only(n: Node?): set<Node> {
    if n == null then {} else {n}
  }

  ghost function LinksOf(n: Node): Links
    reads n
  {
    Links(n.p, n.l, n.r, n.color, n.key)
  }

  /** The heap around the nodes of `t` is the tree `t`. */
  ghost predicate Holds(t: Tree<Node>)
    reads Nodes(t)
  {
    forall n <- Nodes(t) :: LinksOf(n) == LinksAt(t, null, n)
  }

  /** The nodes of `t` hang below `q` as `t` says. */
  ghost predicate Below(t: Tree<Node>, q: Node?)
    reads Nodes(t)
  {
    NoDup(t) && forall n <- Nodes(t) :: LinksOf(n) == LinksAt(t, q, n)
  }

  lemma BelowChildren(t: Tree<Node>, q: Node?)
    requires Below(t, q) && t.Fork?
    ensures Below(t.left, t.node) && Below(t.right, t.node)
    ensures LinksOf(t.node) == Links(q, RootOf(t.left), RootOf(t.right), t.color, t.key)
  {
    assert t.node in Nodes(t);
    forall n | n in Nodes(t.left) + Nodes(t.right)
      ensures LinksOf(n) == if n in Nodes(t.left) then LinksAt(t.left, t.node, n) else LinksAt(t.right, t.node, n)
    {
      assert LinksOf(n) == LinksAt(t, q, n);
    }
  }
}
