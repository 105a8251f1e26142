/** The parent-pointer red-black tree (kfxx::RBTree, non-fallible, three-way comparator,
    integer keys). */
module RBTreeModel {
  import Arith
  import opened LinkedShape
  import opened Shape

  class RBTree {
    var root: Node?
    var cachedMin: Node?
    var cachedMax: Node?
    var size: nat
    ghost var shape: Tree<Node>
    ghost var repr: set<Node>

    constructor ()
      ensures Valid() && Contents() == [] && repr == {}
    {
      root, cachedMin, cachedMax, size := null, null, null, 0;
      shape, repr := Leaf, {};
    }

    /** The links in the heap are those of `shape`, each node occurring once. */
    ghost predicate Linked()
      reads this, Nodes(shape)
    {
      root == RootOf(shape) && NoDup(shape) && repr == Nodes(shape) && Holds(shape)
    }

    method Lrot(x: Node)
      requires x.r != null && x.r != x && x.r.l != x && x.r.l != x.r
      requires x.p != x && x.p != x.r && (x.p != null ==> x.p != x.r.l)
      modifies this`root, {x, x.r}`p, {x, x.r}`l, {x, x.r}`r, Only(x.r.l)`p, Only(x.p)`l, Only(x.p)`r
      ensures var y, b, q := old(x.r), old(x.r.l), old(x.p);
        && LinksOf(x) == old(LinksOf(x)).(p := y, r := b)
        && LinksOf(y) == old(LinksOf(y)).(p := q, l := x)
        && (b != null ==> b.p == x)
        && (q != null ==> q.l == (if old(q.l) == x then y else old(q.l)))
        && (q != null ==> q.r == (if old(q.l) != x then y else old(q.r)))
        && root == (if q == null then y else old(root))
    {
      var y := x.r;
      x.r := y.l;
      if y.l != null {
        y.l.p := x;
      }
      y.p := x.p;
      if x.p == null {
        root := y;
      } else if x.p.l == x {
        x.p.l := y;
      } else {
        x.p.r := y;
      }
      y.l := x;
      x.p := y;
    }

    method Rrot(x: Node)
      requires x.l != null && x.l != x && x.l.r != x && x.l.r != x.l
      requires x.p != x && x.p != x.l && (x.p != null ==> x.p != x.l.r)
      modifies this`root, {x, x.l}`p, {x, x.l}`l, {x, x.l}`r, Only(x.l.r)`p, Only(x.p)`l, Only(x.p)`r
      ensures var y, b, q := old(x.l), old(x.l.r), old(x.p);
        && LinksOf(x) == old(LinksOf(x)).(p := y, l := b)
        && LinksOf(y) == old(LinksOf(y)).(p := q, r := x)
        && (b != null ==> b.p == x)
        && (q != null ==> q.l == (if old(q.l) == x then y else old(q.l)))
        && (q != null ==> q.r == (if old(q.l) != x then y else old(q.r)))
        && root == (if q == null then y else old(root))
    {
      var y := x.l;
      x.l := y.r;
      if y.r != null {
        y.r.p := x;
      }
      y.p := x.p;
      if x.p == null {
        root := y;
      } else if x.p.l == x {
        x.p.l := y;
      } else {
        x.p.r := y;
      }
      y.r := x;
      x.p := y;
    }

    method RotateLeft(x: Node, ghost c: Ctx<Node>, ghost t: Tree<Node>)
      requires Linked() && shape == Plug(c, t) && t.Fork? && t.right.Fork? && t.node == x
      modifies this`root, this`shape, repr`l, repr`r, repr`p
      ensures Linked() && shape == Plug(c, RotL(t)) && InOrder(shape) == old(InOrder(shape))
    {
      hide InOrder, LinksAt;
      ghost var y, b, q := t.right.node, RootOf(t.right.left), HoleParent(c);
      assert && x in repr && y in repr && Only(q) <= repr && Only(b) <= repr
             && x != y && b != x && b != y && q != x && q != y && (q != null ==> q != b)
             && x.r == y && y.l == b && x.p == q by {
        PlugNoDup(c, t);
        PlugNodes(c, t);
        LrotWhole(c, t, x);
        LrotWhole(c, t, y);
      }
      Lrot(x);
      forall n | n in repr
        ensures n in Nodes(Plug(c, RotL(t))) && LinksOf(n) == LinksAt(Plug(c, RotL(t)), null, n)
      {
        LrotWhole(c, t, n);
      }
      LrotWhole(c, t, x);
      PlugRoot(c, t, RotL(t));
      RotLInOrder(c, t);
      shape := Plug(c, RotL(t));
    }

    method RotateRight(x: Node, ghost c: Ctx<Node>, ghost t: Tree<Node>)
      requires Linked() && shape == Plug(c, t) && t.Fork? && t.left.Fork? && t.node == x
      modifies this`root, this`shape, repr`l, repr`r, repr`p
      ensures Linked() && shape == Plug(c, RotR(t)) && InOrder(shape) == old(InOrder(shape))
    {
      hide InOrder, LinksAt;
      ghost var y, b, q := t.left.node, RootOf(t.left.right), HoleParent(c);
      assert && x in repr && y in repr && Only(q) <= repr && Only(b) <= repr
             && x != y && b != x && b != y && q != x && q != y && (q != null ==> q != b)
             && x.l == y && y.r == b && x.p == q by {
        PlugNoDup(c, t);
        PlugNodes(c, t);
        RrotWhole(c, t, x);
        RrotWhole(c, t, y);
      }
      Rrot(x);
      forall n | n in repr
        ensures n in Nodes(Plug(c, RotR(t))) && LinksOf(n) == LinksAt(Plug(c, RotR(t)), null, n)
      {
        RrotWhole(c, t, n);
      }
      RrotWhole(c, t, x);
      PlugRoot(c, t, RotR(t));
      RotRInOrder(c, t);
      shape := Plug(c, RotR(t));
    }

    lemma LinkedBelow(c: Ctx<Node>, t: Tree<Node>)
      requires Linked() && shape == Plug(c, t)
      ensures Below(t, HoleParent(c))
    {
      PlugNoDup(c, t);
      forall n | n in Nodes(t)
        ensures LinksOf(n) == LinksAt(t, HoleParent(c), n)
      {
        PlugLinks(c, t, n);
      }
    }

    /** The fields of a focused node, read off the focus. */
    lemma At(c: Ctx<Node>, t: Tree<Node>)
      requires Linked() && shape == Plug(c, t) && t.Fork?
      ensures t.node in repr
      ensures LinksOf(t.node) == Links(HoleParent(c), RootOf(t.left), RootOf(t.right), t.color, t.key)
    {
      PlugNoDup(c, t);
      PlugLinks(c, t, t.node);
    }

    /** Assigns the colour of one node. */
    method Paint(x: Node, col: Color, ghost c: Ctx<Node>, ghost t: Tree<Node>)
      requires Linked() && shape == Plug(c, t) && t.Fork? && t.node == x
      modifies this`shape, repr`color
      ensures Linked() && shape == Plug(c, t.(color := col)) && InOrder(shape) == old(InOrder(shape))
    {
      ghost var t' := t.(color := col);
      PlugNoDup(c, t);
      RefillNoDup(c, t, t');
      PlugRoot(c, t, t');
      assert InOrder(Plug(c, t')) == InOrder(Plug(c, t)) by {
        PlugInOrder(c, t);
        PlugInOrder(c, t');
      }
      At(c, t);
      x.color := col;
      forall n | n in repr
        ensures LinksOf(n) == LinksAt(Plug(c, t'), null, n)
      {
        PlugLinks(c, t, n);
        if n in Nodes(t) {
          PlugLinks(c, t', n);
        } else {
          RefillLinks(c, t, t', n);
        }
      }
      shape := Plug(c, t');
    }

    /** The fields of the node above a non-empty focus. */
    lemma Above(c: Ctx<Node>, t: Tree<Node>)
      requires Linked() && shape == Plug(c, t) && t.Fork? && !c.Top?
      ensures t.node.p == c.node && c.node in repr && c.node.color == c.color && c.node.p == HoleParent(c.up)
      ensures c.InLeft? ==> c.node.l == t.node && c.node.r == RootOf(c.right) && c.node.r != t.node
      ensures c.InRight? ==> c.node.r == t.node && c.node.l == RootOf(c.left) && c.node.l != t.node
      ensures var s := if c.InLeft? then c.right else c.left; s.Fork? ==> s.node.color == s.color
    {
      At(c, t);
      At(c.up, OneUp(c, t));
      PlugNoDup(c, t);
      if c.InLeft? && c.right.Fork? {
        At(InRight(t, c.node, c.color, c.key, c.up), c.right);
      } else if c.InRight? && c.left.Fork? {
        At(InLeft(c.up, c.node, c.color, c.key, t), c.left);
      }
    }

    /** The parent of a focused node and the colour found there. */
    lemma ParentOf(c: Ctx<Node>, t: Tree<Node>)
      requires Linked() && shape == Plug(c, t) && t.Fork?
      ensures t.node in repr && t.node.p == HoleParent(c)
      ensures !c.Top? ==> c.node in repr && c.node.color == HoleColor(c)
    {
      At(c, t);
      if !c.Top? {
        Above(c, t);
      }
    }

    // ---------------------------------------------------------------- insertion

    /** The red-uncle step: three colours change and the focus moves two levels up. */
    method Recolor(p: Node, u: Node, gp: Node, ghost c: Ctx<Node>, ghost t: Tree<Node>) returns (ghost t': Tree<Node>)
      requires Linked() && shape == Plug(c, t) && Inserting(c, t) && HoleColor(c) == Red
      requires !c.Top? && !c.up.Top? && p == c.node && gp == c.up.node
      requires var uncle := Sibling(c.up); IsRed(uncle) && u == uncle.node
      modifies this`shape, repr`color
      ensures Linked() && shape == Plug(c.up.up, t') && Inserting(c.up.up, t') && t'.node == gp
      ensures InOrder(shape) == old(InOrder(shape))
    {
      hide Linked, InOrder;
      ghost var g, pt := c.up, OneUp(c, t);
      Paint(p, Black, g, pt);
      ghost var cu := if g.InLeft? then InRight(Blacken(pt), gp, g.color, g.key, g.up)
                      else InLeft(g.up, gp, g.color, g.key, Blacken(pt));
      ghost var ut := if g.InLeft? then g.right else g.left;
      Paint(u, Black, cu, ut);
      t' := OneUp(cu, Blacken(ut));
      Paint(gp, Red, g.up, t');
      t' := t'.(color := Red);
      RedUncle(c, t);
    }

    /** The black-uncle step on the left side: at most two rotations, then two colours. */
    method StraightenLeft(node0: Node, p0: Node, gp: Node, ghost c: Ctx<Node>, ghost t: Tree<Node>)
      returns (ghost c': Ctx<Node>, ghost t': Tree<Node>)
      requires Linked() && shape == Plug(c, t) && Inserting(c, t) && HoleColor(c) == Red
      requires !c.Top? && c.up.InLeft? && p0 == c.node && gp == c.up.node && node0 == t.node && !IsRed(c.up.right)
      modifies this`root, this`shape, repr`l, repr`r, repr`p, repr`color
      ensures Linked() && shape == Plug(c', t') && Inserting(c', t') && t'.node == gp && HoleColor(c') == Black
      ensures !c'.Top?
      ensures InOrder(shape) == old(InOrder(shape))
    {
      hide Linked, InOrder;
      var node, p := node0, p0;
      ghost var g, pt := c.up, OneUp(c, t);
      Above(c, t);
      if node == p.r {
        RotateLeft(p, g, pt);
        node, p := p, node;
        pt := RotL(pt);
      }
      ghost var gt := OneUp(g, pt);
      RotateRight(gp, g.up, gt);
      gt := RotR(gt);
      Paint(p, Black, g.up, gt);
      gt := Blacken(gt);
      c', t' := InRight(gt.left, p, Black, gt.key, g.up), gt.right;
      Paint(gp, Red, c', t');
      t' := t'.(color := Red);
      RedParent(c, t);
      BlackUncleRight(g, gt.left, p, gt.key, t'.left);
    }

    method StraightenRight(node0: Node, p0: Node, gp: Node, ghost c: Ctx<Node>, ghost t: Tree<Node>)
      returns (ghost c': Ctx<Node>, ghost t': Tree<Node>)
      requires Linked() && shape == Plug(c, t) && Inserting(c, t) && HoleColor(c) == Red
      requires !c.Top? && c.up.InRight? && p0 == c.node && gp == c.up.node && node0 == t.node && !IsRed(c.up.left)
      modifies this`root, this`shape, repr`l, repr`r, repr`p, repr`color
      ensures Linked() && shape == Plug(c', t') && Inserting(c', t') && t'.node == gp && HoleColor(c') == Black
      ensures !c'.Top?
      ensures InOrder(shape) == old(InOrder(shape))
    {
      hide Linked, InOrder;
      var node, p := node0, p0;
      ghost var g, pt := c.up, OneUp(c, t);
      Above(c, t);
      if node == p.l {
        RotateRight(p, g, pt);
        node, p := p, node;
        pt := RotR(pt);
      }
      ghost var gt := OneUp(g, pt);
      RotateLeft(gp, g.up, gt);
      gt := RotL(gt);
      Paint(p, Black, g.up, gt);
      gt := Blacken(gt);
      c', t' := InLeft(g.up, p, Black, gt.key, gt.right), gt.left;
      Paint(gp, Red, c', t');
      t' := t'.(color := Red);
      RedParent(c, t);
      BlackUncleLeft(g, gt.right, p, gt.key, t'.right);
    }

    /** One turn of the insertion loop, for a red parent `p`. */
    method InsertStep(node: Node, p: Node, ghost c: Ctx<Node>, ghost t: Tree<Node>)
      returns (gp: Node, node': Node, ghost c': Ctx<Node>, ghost t': Tree<Node>)
      requires Linked() && shape == Plug(c, t) && Inserting(c, t) && HoleColor(c) == Red
      requires !c.Top? && p == c.node && node == t.node
      modifies this`root, this`shape, repr`l, repr`r, repr`p, repr`color
      ensures Linked() && shape == Plug(c', t') && Inserting(c', t') && t'.node == gp
      ensures HoleColor(c') == Red ==> node' == gp && Depth(c') < Depth(c)
      ensures InOrder(shape) == old(InOrder(shape))
    {
      hide Linked, InOrder;
      node' := node;
      RedParent(c, t);
      Above(c, t);
      Above(c.up, OneUp(c, t));
      gp := p.p;
      if p == gp.l {
        var u := gp.r;
        if u != null && u.color == Red {
          t' := Recolor(p, u, gp, c, t);
          c' := c.up.up;
          node' := gp;
        } else {
          c', t' := StraightenLeft(node, p, gp, c, t);
        }
      } else {
        var u := gp.l;
        if u != null && u.color == Red {
          t' := Recolor(p, u, gp, c, t);
          c' := c.up.up;
          node' := gp;
        } else {
          c', t' := StraightenRight(node, p, gp, c, t);
        }
      }
    }

    method InsertFixup(node0: Node, ghost c0: Ctx<Node>, ghost t0: Tree<Node>)
      requires Linked() && shape == Plug(c0, t0) && Inserting(c0, t0) && t0.node == node0
      modifies this`root, this`shape, repr`l, repr`r, repr`p, repr`color
      ensures Linked() && RedBlack(shape) && InOrder(shape) == old(InOrder(shape))
    {
      hide InOrder;
      var node, gp := node0, node0;
      ghost var c, t := c0, t0;
      ParentOf(c, t);
      var p := gp.p;
      while p != null && p.color == Red
        invariant Linked() && shape == Plug(c, t) && Inserting(c, t)
        invariant gp == t.node && p == HoleParent(c) && (HoleColor(c) == Red ==> node == gp)
        invariant p != null ==> p.color == HoleColor(c)
        invariant InOrder(shape) == old(InOrder(shape))
        decreases if HoleColor(c) == Red then 1 + Depth(c) else 0
      {
        gp, node, c, t := InsertStep(node, p, c, t);
        ParentOf(c, t);
        p := gp.p;
      }
      InsertingDone(c, t);
      Paint(root, Black, Top, shape);
    }

    /** Hangs `node` below `parent`, on the side its key calls for. */
    method Link(parent: Node, node: Node, ghost c: Ctx<Node>)
      requires Linked() && shape == Plug(c, Leaf) && !c.Top? && parent == c.node
      requires node !in repr && node.l == null && node.r == null
      requires if c.InLeft? then node.key < c.key else c.key < node.key
      modifies this`shape, this`repr, repr`l, repr`r, node`p, node`color
      ensures repr == old(repr) + {node}
      ensures Linked() && shape == Plug(c, Fork(Leaf, node, Red, node.key, Leaf))
    {
      ghost var t' := Fork(Leaf, node, Red, node.key, Leaf);
      assert NoDup(Plug(c, t')) && Nodes(Plug(c, t')) == repr + {node} by {
        PlugNoDup(c, Leaf);
        PlugNodes(c, Leaf);
        PlugNoDup(c, t');
        PlugNodes(c, t');
      }
      PlugRoot(c, Leaf, t');
      At(c.up, OneUp(c, Leaf));
      if node.key < parent.key {
        parent.l := node;
      } else if node.key > parent.key {
        parent.r := node;
      } else {
        assert false;
      }
      node.p := parent;
      node.color := Red;
      forall n | n in repr + {node}
        ensures LinksOf(n) == LinksAt(Plug(c, t'), null, n)
      {
        PlugLinks(c, t', n);
        PlugLinks(c, Leaf, n);
        if n != node {
          RefillLinks(c, Leaf, t', n);
        }
      }
      repr := repr + {node};
      shape := Plug(c, t');
    }

    // ---------------------------------------------------------------- smallest and largest

    /** The leftmost node below `n`, with the way down to it. */
    static method GetMinNode(n: Node?, ghost t: Tree<Node>, ghost q: Node?)
      returns (m: Node?, ghost inner: Ctx<Node>, ghost s: Tree<Node>)
      requires Below(t, q) && n == RootOf(t)
      ensures t.Leaf? ==> m == null
      ensures t.Fork? ==> t == Plug(inner, s) && s.Fork? && s.left.Leaf? && m == s.node && Before(inner) == []
      ensures t.Fork? ==> InOrder(t)[0] == Item(s.node, s.key)
    {
      inner, s := Top, t;
      m := n;
      if m == null {
        return;
      }
      ghost var parent := q;
      BelowChildren(s, parent);
      while m.l != null
        invariant s.Fork? && m == s.node && t == Plug(inner, s) && Before(inner) == [] && Below(s, parent)
        invariant LinksOf(m) == Links(parent, RootOf(s.left), RootOf(s.right), s.color, s.key)
        decreases s
      {
        BelowChildren(s, parent);
        m := m.l;
        parent := s.node;
        inner, s := InLeft(inner, s.node, s.color, s.key, s.right), s.left;
        BelowChildren(s, parent);
      }
      PlugInOrder(inner, s);
    }

    /** The rightmost node below `n`, with the way down to it. */
    static method GetMaxNode(n: Node?, ghost t: Tree<Node>, ghost q: Node?)
      returns (m: Node?, ghost inner: Ctx<Node>, ghost s: Tree<Node>)
      requires Below(t, q) && n == RootOf(t)
      ensures t.Leaf? ==> m == null
      ensures t.Fork? ==> t == Plug(inner, s) && s.Fork? && s.right.Leaf? && m == s.node && After(inner) == []
      ensures t.Fork? ==> |InOrder(t)| > 0 && InOrder(t)[|InOrder(t)| - 1] == Item(s.node, s.key)
    {
      inner, s := Top, t;
      m := n;
      if m == null {
        return;
      }
      ghost var parent := q;
      BelowChildren(s, parent);
      while m.r != null
        invariant s.Fork? && m == s.node && t == Plug(inner, s) && After(inner) == [] && Below(s, parent)
        invariant LinksOf(m) == Links(parent, RootOf(s.left), RootOf(s.right), s.color, s.key)
        decreases s
      {
        BelowChildren(s, parent);
        m := m.r;
        parent := s.node;
        inner, s := InRight(s.left, s.node, s.color, s.key, inner), s.right;
        BelowChildren(s, parent);
      }
      PlugInOrder(inner, s);
    }

    ghost predicate CachesRight()
      reads this
    {
      var s := InOrder(shape);
      && size == |s|
      && cachedMin == (if s == [] then null else s[0].node)
      && cachedMax == (if s == [] then null else s[|s| - 1].node)
    }

    /** A red-black search tree with right caches and count. */
    ghost predicate Valid()
      reads this, Nodes(shape)
    {
      Linked() && RedBlack(shape) && Sorted(InOrder(shape)) && CachesRight()
    }

    ghost function Contents(): seq<Item<Node>>
      reads this
    {
      InOrder(shape)
    }

    /** A tree of `size` nodes is at most 2 log2(size + 1) high. */
    lemma HeightIsLogarithmic()
      requires Valid()
      ensures Arith.Pow2(Height(shape)) <= (size + 1) * (size + 1)
    {
      HeightBound(shape);
    }

    /** The two cache assignments that end an insertion or a removal. */
    method RefreshCaches()
      requires Linked()
      modifies this`cachedMin, this`cachedMax
      ensures Linked()
      ensures cachedMin == (if Contents() == [] then null else Contents()[0].node)
      ensures cachedMax == (if Contents() == [] then null else Contents()[|Contents()| - 1].node)
    {
      ghost var i, s;
      cachedMin, i, s := GetMinNode(root, shape, null);
      cachedMax, i, s := GetMaxNode(root, shape, null);
    }

    // ---------------------------------------------------------------- the slot for a key

    /** One step down a search tree: the side that is left behind lies on one side of the key. */
    lemma {:induction false} Descend(c: Ctx<Node>, t: Tree<Node>, key: int)
      requires Linked() && Sorted(InOrder(shape)) && shape == Plug(c, t) && t.Fork?
      requires forall e <- Before(c) :: e.key < key
      requires forall e <- After(c) :: key < e.key
      ensures t.node in repr && LinksOf(t.node) == Links(HoleParent(c), RootOf(t.left), RootOf(t.right), t.color, t.key)
      ensures t.key < key ==> forall e <- Before(InRight(t.left, t.node, t.color, t.key, c)) :: e.key < key
      ensures key < t.key ==> forall e <- After(InLeft(c, t.node, t.color, t.key, t.right)) :: key < e.key
      ensures Item(t.node, t.key) in InOrder(shape)
    {
      At(c, t);
      PlugInOrder(c, t);
      SortedAround(Before(c), t, After(c));
      var e0 := Item(t.node, t.key);
      assert e0 in Before(c) + InOrder(t) + After(c);
      assert Before(InRight(t.left, t.node, t.color, t.key, c)) == Before(c) + (InOrder(t.left) + [e0]);
      assert After(InLeft(c, t.node, t.color, t.key, t.right)) == ([e0] + InOrder(t.right)) + After(c);
    }

    /** `_get_slot`: descends to the leaf where `key` belongs.  `ok` is false when the key is
        taken, which the source reports as a null slot. */
    method GetSlot(key: int) returns (ok: bool, parent: Node?, ghost c: Ctx<Node>)
      requires Linked() && Sorted(InOrder(shape))
      ensures ok <==> forall e <- InOrder(shape) :: e.key != key
      ensures ok ==> shape == Plug(c, Leaf) && parent == HoleParent(c)
      ensures ok ==> (forall e <- Before(c) :: e.key < key) && (forall e <- After(c) :: key < e.key)
    {
      var i := root;
      ghost var t := shape;
      parent, c := null, Top;
      while i != null
        invariant shape == Plug(c, t) && i == RootOf(t) && parent == HoleParent(c)
        invariant forall e <- Before(c) :: e.key < key
        invariant forall e <- After(c) :: key < e.key
        decreases t
      {
        parent := i;
        Descend(c, t, key);
        if i.key < key {
          i := i.r;
          c, t := InRight(t.left, t.node, t.color, t.key, c), t.right;
        } else if i.key > key {
          i := i.l;
          c, t := InLeft(c, t.node, t.color, t.key, t.right), t.left;
        } else {
          return false, parent, c;
        }
      }
      PlugInOrder(c, t);
      return true, parent, c;
    }

    // ---------------------------------------------------------------- insert

    /** Links `node` into the empty slot of `c` and restores the red-black shape. */
    method Place(parent: Node?, node: Node, ghost c: Ctx<Node>)
      requires Linked() && RedBlack(shape) && shape == Plug(c, Leaf) && parent == HoleParent(c)
      requires node !in repr && node.p == null && node.l == null && node.r == null
      requires c.InLeft? ==> node.key < c.key
      requires c.InRight? ==> c.key < node.key
      modifies this`root, this`shape, this`repr, repr`l, repr`r, repr`p, repr`color, node`p, node`l, node`r, node`color
      ensures Linked() && RedBlack(shape) && repr == old(repr) + {node}
      ensures InOrder(shape) == Before(c) + [Item(node, node.key)] + After(c)
    {
      ghost var added := Fork(Leaf, node, Red, node.key, Leaf);
      assert InOrder(Plug(c, added)) == Before(c) + [Item(node, node.key)] + After(c) by {
        PlugInOrder(c, added);
      }
      PlugRoot(c, Leaf, Fork(Leaf, node, Red, node.key, Leaf));
      if root == null {
        root := node;
        node.color := Black;
        repr := repr + {node};
        shape := Fork(Leaf, node, Black, node.key, Leaf);
      } else {
        InsertingStart(c, node, node.key);
        Link(parent, node, c);
        InsertFixup(node, c, Fork(Leaf, node, Red, node.key, Leaf));
      }
    }

    /** `_insert`: as `Place`, then the caches and the count. */
    method InsertAt(parent: Node?, node: Node, ghost c: Ctx<Node>)
      requires Valid() && shape == Plug(c, Leaf) && parent == HoleParent(c)
      requires node !in repr && node.p == null && node.l == null && node.r == null
      requires c.InLeft? ==> node.key < c.key
      requires c.InRight? ==> c.key < node.key
      requires Sorted(Before(c) + [Item(node, node.key)] + After(c))
      modifies this, repr`l, repr`r, repr`p, repr`color, node`p, node`l, node`r, node`color
      ensures Valid() && repr == old(repr) + {node}
      ensures Contents() == Before(c) + [Item(node, node.key)] + After(c)
    {
      hide RedBlack, Holds, NoDup;
      PlugInOrder(c, Leaf);
      Place(parent, node, c);
      RefreshCaches();
      size := size + 1;
    }

    /** `insert`: a node whose key is new is added at its place in the order; a node whose key
        is taken changes nothing. */
    method Insert(node: Node) returns (ok: bool)
      requires Valid() && node !in repr && node.p == null && node.l == null && node.r == null
      modifies this, repr`l, repr`r, repr`p, repr`color, node`p, node`l, node`r, node`color
      ensures Valid()
      ensures ok <==> forall e <- old(Contents()) :: e.key != node.key
      ensures !ok ==> unchanged(this) && unchanged(repr) && unchanged(node)
      ensures ok ==> repr == old(repr) + {node} && Adds(old(Contents()), Contents(), Item(node, node.key))
    {
      var parent;
      ghost var c;
      ok, parent, c := GetSlot(node.key);
      if !ok {
        return;
      }
      SlotSides(c, node.key);
      AddsSorted(c, Item(node, node.key));
      InsertAt(parent, node, c);
    }

    // ---------------------------------------------------------------- removal: restoring the shape

    static predicate IsBlackNode(n: Node?)
      reads n
    {
      n == null || n.color == Black
    }

    /** The fields around the hole of `c`, whatever fills it. */
    lemma Around(c: Ctx<Node>, t: Tree<Node>)
      requires Linked() && shape == Plug(c, t) && !c.Top?
      ensures c.node in repr && c.node.color == c.color && c.node.p == HoleParent(c.up)
      ensures c.InLeft? ==> c.node.l == RootOf(t) && c.node.r == RootOf(c.right)
      ensures c.InRight? ==> c.node.r == RootOf(t) && c.node.l == RootOf(c.left)
      ensures t.Fork? ==> t.node in repr && t.node.color == t.color && RootOf(Sibling(c)) != RootOf(t)
    {
      At(c.up, OneUp(c, t));
      PlugNoDup(c, t);
      if t.Fork? {
        At(c, t);
      }
    }

    /** The other side of the hole's parent: the sibling and the colours of its children. */
    lemma AtSibling(c: Ctx<Node>, t: Tree<Node>)
      requires Linked() && shape == Plug(c, t) && !c.Top? && Sibling(c).Fork?
      ensures var s := Sibling(c);
        && s.node in repr && s.node.color == s.color && s.node.l == RootOf(s.left) && s.node.r == RootOf(s.right)
        && IsBlackNode(s.node.l) == !IsRed(s.left) && IsBlackNode(s.node.r) == !IsRed(s.right)
        && Only(s.node.l) <= repr && Only(s.node.r) <= repr
    {
      var s := Sibling(c);
      var cs := if c.InLeft? then InRight(t, c.node, c.color, c.key, c.up) else InLeft(c.up, c.node, c.color, c.key, t);
      At(cs, s);
      if s.left.Fork? {
        At(InLeft(cs, s.node, s.color, s.key, s.right), s.left);
      }
      if s.right.Fork? {
        At(InRight(s.left, s.node, s.color, s.key, cs), s.right);
      }
    }

    /** The colour of the node in the hole, and whether that node is the root. */
    lemma HoleColorAt(c: Ctx<Node>, t: Tree<Node>)
      requires Linked() && shape == Plug(c, t)
      ensures Only(RootOf(t)) <= repr && IsBlackNode(RootOf(t)) == !IsRed(t)
      ensures RootOf(t) == root <==> c.Top? || (t.Leaf? && shape.Leaf?)
      ensures shape.Leaf? ==> c.Top?
    {
      PlugNoDup(c, t);
      PlugRoot(c, t, t);
      if t.Fork? {
        At(c, t);
      }
      if !c.Top? {
        PlugRootInCtx(c, t);
      }
    }

    /** Red sibling on the right. */
    method TurnRedSiblingRight(p: Node, w: Node, ghost c: Ctx<Node>, ghost t: Tree<Node>)
      returns (w': Node, ghost c': Ctx<Node>)
      requires Linked() && shape == Plug(c, t) && Removing(c, t) && !IsRed(t)
      requires c.InLeft? && IsRed(c.right) && p == c.node && w == c.right.node
      modifies this`root, this`shape, repr`l, repr`r, repr`p, repr`color
      ensures Linked() && shape == Plug(c', t) && Removing(c', t) && InOrder(shape) == old(InOrder(shape))
      ensures c'.InLeft? && c'.node == p && c'.color == Red && c'.right.Fork? && c'.right.color == Black
      ensures w' == c'.right.node
      ensures Depth(c') == Depth(c) + 1
    {
      hide Linked, Removing, InOrder, RedBlack;
      ghost var s := c.right;
      RedSiblingRight(c, t);
      Paint(w, Black, InRight(t, p, c.color, c.key, c.up), s);
      Paint(p, Red, c.up, Fork(t, p, c.color, c.key, Blacken(s)));
      RotateLeft(p, c.up, Fork(t, p, Red, c.key, Blacken(s)));
      c' := InLeft(InLeft(c.up, w, Black, s.key, s.right), p, Red, c.key, s.left);
      Around(c', t);
      w' := p.r;
    }

    method TurnRedSiblingLeft(p: Node, w: Node, ghost c: Ctx<Node>, ghost t: Tree<Node>)
      returns (w': Node, ghost c': Ctx<Node>)
      requires Linked() && shape == Plug(c, t) && Removing(c, t) && !IsRed(t)
      requires c.InRight? && IsRed(c.left) && p == c.node && w == c.left.node
      modifies this`root, this`shape, repr`l, repr`r, repr`p, repr`color
      ensures Linked() && shape == Plug(c', t) && Removing(c', t) && InOrder(shape) == old(InOrder(shape))
      ensures c'.InRight? && c'.node == p && c'.color == Red && c'.left.Fork? && c'.left.color == Black
      ensures w' == c'.left.node
      ensures Depth(c') == Depth(c) + 1
    {
      hide Linked, Removing, InOrder, RedBlack;
      ghost var s := c.left;
      RedSiblingLeft(c, t);
      Paint(w, Black, InLeft(c.up, p, c.color, c.key, t), s);
      Paint(p, Red, c.up, Fork(Blacken(s), p, c.color, c.key, t));
      RotateRight(p, c.up, Fork(Blacken(s), p, Red, c.key, t));
      c' := InRight(s.right, p, Red, c.key, InRight(s.left, w, Black, s.key, c.up));
      Around(c', t);
      w' := p.l;
    }

    /** Black sibling on the right whose left child alone is red. */
    method FarNephewRight(p: Node, w: Node, ghost c: Ctx<Node>, ghost t: Tree<Node>)
      returns (w': Node, ghost c': Ctx<Node>)
      requires Linked() && shape == Plug(c, t) && Removing(c, t) && !IsRed(t)
      requires c.InLeft? && c.right.Fork? && c.right.color == Black && p == c.node && w == c.right.node
      requires !IsRed(c.right.right) && IsRed(c.right.left)
      modifies this`root, this`shape, repr`l, repr`r, repr`p, repr`color
      ensures Linked() && shape == Plug(c', t) && Removing(c', t) && InOrder(shape) == old(InOrder(shape))
      ensures c'.InLeft? && c'.node == p && c'.up == c.up && c'.color == c.color && c'.key == c.key
      ensures c'.right.Fork? && c'.right.color == Black && IsRed(c'.right.right) && w' == c'.right.node
    {
      hide Linked, Removing, InOrder, RedBlack;
      ghost var s := c.right;
      ghost var cs := InRight(t, p, c.color, c.key, c.up);
      RedNearNephewRight(c, t);
      AtSibling(c, t);
      if w.l != null {
        Paint(w.l, Black, InLeft(cs, w, Black, s.key, s.right), s.left);
      }
      s := s.(left := Blacken(s.left));
      Paint(w, Red, cs, s);
      s := s.(color := Red);
      RotateRight(w, cs, s);
      c' := InLeft(c.up, p, c.color, c.key, RotR(s));
      Around(c', t);
      w' := p.r;
    }

    method FarNephewLeft(p: Node, w: Node, ghost c: Ctx<Node>, ghost t: Tree<Node>)
      returns (w': Node, ghost c': Ctx<Node>)
      requires Linked() && shape == Plug(c, t) && Removing(c, t) && !IsRed(t)
      requires c.InRight? && c.left.Fork? && c.left.color == Black && p == c.node && w == c.left.node
      requires !IsRed(c.left.left) && IsRed(c.left.right)
      modifies this`root, this`shape, repr`l, repr`r, repr`p, repr`color
      ensures Linked() && shape == Plug(c', t) && Removing(c', t) && InOrder(shape) == old(InOrder(shape))
      ensures c'.InRight? && c'.node == p && c'.up == c.up && c'.color == c.color && c'.key == c.key
      ensures c'.left.Fork? && c'.left.color == Black && IsRed(c'.left.left) && w' == c'.left.node
    {
      hide Linked, Removing, InOrder, RedBlack;
      ghost var s := c.left;
      ghost var cs := InLeft(c.up, p, c.color, c.key, t);
      RedNearNephewLeft(c, t);
      AtSibling(c, t);
      if w.r != null {
        Paint(w.r, Black, InRight(s.left, w, Black, s.key, cs), s.right);
      }
      s := s.(right := Blacken(s.right));
      Paint(w, Red, cs, s);
      s := s.(color := Red);
      RotateLeft(w, cs, s);
      c' := InRight(RotL(s), p, c.color, c.key, c.up);
      Around(c', t);
      w' := p.l;
    }

    /** Black sibling on the right with a red child: the last step. */
    method EndShortageRight(p: Node, w0: Node, ghost c0: Ctx<Node>, ghost t: Tree<Node>) returns (ghost c': Ctx<Node>)
      requires Linked() && shape == Plug(c0, t) && Removing(c0, t) && !IsRed(t)
      requires c0.InLeft? && c0.right.Fork? && c0.right.color == Black && p == c0.node && w0 == c0.right.node
      requires IsRed(c0.right.right) || IsRed(c0.right.left)
      modifies this`root, this`shape, repr`l, repr`r, repr`p, repr`color
      ensures Linked() && shape == Plug(c', t) && RedBlack(shape) && InOrder(shape) == old(InOrder(shape))
    {
      hide Linked, Removing, InOrder, RedBlack;
      var w := w0;
      ghost var c := c0;
      AtSibling(c, t);
      if IsBlackNode(w.r) {
        w, c := FarNephewRight(p, w, c, t);
      }
      ghost var s, cs := c.right, InRight(t, p, c.color, c.key, c.up);
      RedFarNephewRight(c, t);
      Around(c, t);
      Paint(w, p.color, cs, s);
      s := s.(color := c.color);
      Paint(p, Black, c.up, Fork(t, p, c.color, c.key, s));
      AtSibling(InLeft(c.up, p, Black, c.key, s), t);
      if w.r != null {
        Paint(w.r, Black, InRight(s.left, w, c.color, s.key, InRight(t, p, Black, c.key, c.up)), s.right);
      }
      s := s.(right := Blacken(s.right));
      RotateLeft(p, c.up, Fork(t, p, Black, c.key, s));
      c' := InLeft(InLeft(c.up, w, c.color, s.key, s.right), p, Black, c.key, s.left);
    }

    method EndShortageLeft(p: Node, w0: Node, ghost c0: Ctx<Node>, ghost t: Tree<Node>) returns (ghost c': Ctx<Node>)
      requires Linked() && shape == Plug(c0, t) && Removing(c0, t) && !IsRed(t)
      requires c0.InRight? && c0.left.Fork? && c0.left.color == Black && p == c0.node && w0 == c0.left.node
      requires IsRed(c0.left.right) || IsRed(c0.left.left)
      modifies this`root, this`shape, repr`l, repr`r, repr`p, repr`color
      ensures Linked() && shape == Plug(c', t) && RedBlack(shape) && InOrder(shape) == old(InOrder(shape))
    {
      hide Linked, Removing, InOrder, RedBlack;
      var w := w0;
      ghost var c := c0;
      AtSibling(c, t);
      if IsBlackNode(w.l) {
        w, c := FarNephewLeft(p, w, c, t);
      }
      ghost var s, cs := c.left, InLeft(c.up, p, c.color, c.key, t);
      RedFarNephewLeft(c, t);
      Around(c, t);
      Paint(w, p.color, cs, s);
      s := s.(color := c.color);
      Paint(p, Black, c.up, Fork(s, p, c.color, c.key, t));
      AtSibling(InRight(s, p, Black, c.key, c.up), t);
      if w.l != null {
        Paint(w.l, Black, InLeft(InLeft(c.up, p, Black, c.key, t), w, c.color, s.key, s.right), s.left);
      }
      s := s.(left := Blacken(s.left));
      RotateRight(p, c.up, Fork(s, p, Black, c.key, t));
      c' := InRight(s.right, p, Black, c.key, InRight(s.left, w, c.color, s.key, c.up));
    }

    /** One turn of the removal loop with the short tree on the left. */
    method ShortLeft(x: Node?, p: Node, ghost c0: Ctx<Node>, ghost t: Tree<Node>)
      returns (done: bool, x': Node?, p': Node?, ghost c': Ctx<Node>, ghost t': Tree<Node>)
      requires Linked() && shape == Plug(c0, t) && Removing(c0, t) && !IsRed(t)
      requires c0.InLeft? && p == c0.node && x == RootOf(t)
      modifies this`root, this`shape, repr`l, repr`r, repr`p, repr`color
      ensures Linked() && shape == Plug(c', t') && InOrder(shape) == old(InOrder(shape)) && x' == RootOf(t')
      ensures done ==> RedBlack(shape) && !IsRed(t')
      ensures !done ==> Removing(c', t') && p' == HoleParent(c')
      ensures !done ==> Depth(c') < Depth(c0) || (Depth(c') == Depth(c0) && IsRed(t'))
    {
      hide Linked, Removing, InOrder, RedBlack;
      ghost var c := c0;
      SiblingExists(c, t);
      Around(c, t);
      AtSibling(c, t);
      var w := p.r;
      if !IsBlackNode(w) {
        w, c := TurnRedSiblingRight(p, w, c, t);
        AtSibling(c, t);
      }
      if IsBlackNode(w.l) && IsBlackNode(w.r) {
        BlackNephews(c, t);
        Paint(w, Red, InRight(t, p, c.color, c.key, c.up), c.right);
        c', t' := c.up, Fork(t, p, c.color, c.key, c.right.(color := Red));
        At(c', t');
        done, x', p' := false, p, p.p;
      } else {
        c' := EndShortageRight(p, w, c, t);
        done, x', p', t' := true, x, p, t;
      }
    }

    /** One turn of the removal loop with the short tree on the right. */
    method ShortRight(x: Node?, p: Node, ghost c0: Ctx<Node>, ghost t: Tree<Node>)
      returns (done: bool, x': Node?, p': Node?, ghost c': Ctx<Node>, ghost t': Tree<Node>)
      requires Linked() && shape == Plug(c0, t) && Removing(c0, t) && !IsRed(t)
      requires c0.InRight? && p == c0.node && x == RootOf(t)
      modifies this`root, this`shape, repr`l, repr`r, repr`p, repr`color
      ensures Linked() && shape == Plug(c', t') && InOrder(shape) == old(InOrder(shape)) && x' == RootOf(t')
      ensures done ==> RedBlack(shape) && !IsRed(t')
      ensures !done ==> Removing(c', t') && p' == HoleParent(c')
      ensures !done ==> Depth(c') < Depth(c0) || (Depth(c') == Depth(c0) && IsRed(t'))
    {
      hide Linked, Removing, InOrder, RedBlack;
      ghost var c := c0;
      SiblingExists(c, t);
      Around(c, t);
      AtSibling(c, t);
      var w := p.l;
      if !IsBlackNode(w) {
        w, c := TurnRedSiblingLeft(p, w, c, t);
        AtSibling(c, t);
      }
      if IsBlackNode(w.r) && IsBlackNode(w.l) {
        BlackNephews(c, t);
        Paint(w, Red, InLeft(c.up, p, c.color, c.key, t), c.left);
        c', t' := c.up, Fork(c.left.(color := Red), p, c.color, c.key, t);
        At(c', t');
        done, x', p' := false, p, p.p;
      } else {
        c' := EndShortageLeft(p, w, c, t);
        done, x', p', t' := true, x, p, t;
      }
    }

    /** One turn of the removal loop; `done` stands for the loop's `break`. */
    method RemoveStep(x: Node?, p: Node, ghost c: Ctx<Node>, ghost t: Tree<Node>)
      returns (done: bool, x': Node?, p': Node?, ghost c': Ctx<Node>, ghost t': Tree<Node>)
      requires Linked() && shape == Plug(c, t) && Removing(c, t) && !IsRed(t)
      requires !c.Top? && p == c.node && x == RootOf(t)
      modifies this`root, this`shape, repr`l, repr`r, repr`p, repr`color
      ensures Linked() && shape == Plug(c', t') && InOrder(shape) == old(InOrder(shape)) && x' == RootOf(t')
      ensures done ==> RedBlack(Plug(c', Darkened(t')))
      ensures !done ==> Removing(c', t') && p' == HoleParent(c')
      ensures !done ==> Depth(c') < Depth(c) || (Depth(c') == Depth(c) && IsRed(t'))
    {
      hide Linked, Removing, InOrder, RedBlack;
      Around(c, t);
      SiblingExists(c, t);
      if x == p.l {
        done, x', p', c', t' := ShortLeft(x, p, c, t);
      } else {
        done, x', p', c', t' := ShortRight(x, p, c, t);
      }
    }

    /** The loop that ends `_remove_fixup`: `x`, below `p`, is one black node short. */
    method RemoveFixup(x0: Node?, p0: Node?, ghost c0: Ctx<Node>, ghost t0: Tree<Node>)
      requires Linked() && shape == Plug(c0, t0) && Removing(c0, t0) && x0 == RootOf(t0) && p0 == HoleParent(c0)
      modifies this`root, this`shape, repr`l, repr`r, repr`p, repr`color
      ensures Linked() && RedBlack(shape) && InOrder(shape) == old(InOrder(shape))
    {
      hide Linked, Removing, InOrder, RedBlack;
      var x, p, done := x0, p0, false;
      ghost var c, t := c0, t0;
      HoleColorAt(c, t);
      while !done && x != root && IsBlackNode(x)
        invariant Linked() && shape == Plug(c, t) && x == RootOf(t)
        invariant if done then RedBlack(Plug(c, Darkened(t))) else Removing(c, t) && p == HoleParent(c)
        invariant InOrder(shape) == old(InOrder(shape))
        invariant IsBlackNode(x) == !IsRed(t) && (x == root <==> c.Top?) && Only(x) <= repr
        decreases !done, Depth(c), !IsRed(t)
      {
        done, x, p, c, t := RemoveStep(x, p, c, t);
        HoleColorAt(c, t);
      }
      if !done {
        RemovingDone(c, t);
      }
      if x != null {
        Paint(x, Black, c, t);
      }
    }

    // ---------------------------------------------------------------- removal: taking the node out

    /** The branch of `_remove_fixup` for a node with at most one child `x`. */
    method BypassLinks(node: Node, x: Node?) returns (p: Node?)
      requires root != node ==> node.p != null
      requires node != x && node != node.p && (x != null ==> x != node.p)
      modifies this`root, Only(x)`p, Only(node.p)`l, Only(node.p)`r
      ensures p == node.p == old(node.p)
      ensures x != null ==> x.p == p
      ensures if old(root) == node then root == x && (p != null ==> p.l == old(p.l) && p.r == old(p.r))
              else root == old(root) && p.l == (if old(p.l) == node then x else old(p.l))
                                     && p.r == (if old(p.l) != node then x else old(p.r))
    {
      p := node.p;
      if x != null {
        x.p := node.p;
      }
      if root == node {
        root := x;
      } else if node.p.l == node {
        node.p.l := x;
      } else {
        node.p.r := x;
      }
    }

    /** Takes out a node with at most one child. */
    method Bypass(node: Node, x: Node?, ghost c: Ctx<Node>, ghost t: Tree<Node>, ghost xt: Tree<Node>)
      returns (p: Node?)
      requires Linked() && shape == Plug(c, t) && OneChild(t, xt) && node == t.node && x == RootOf(xt)
      modifies this`root, this`shape, this`repr, (repr - {node})`l, (repr - {node})`r, (repr - {node})`p
      ensures Linked() && shape == Plug(c, xt) && repr == old(repr) - {node} && p == HoleParent(c)
    {
      SpliceRoot(c, t, xt);
      ghost var q := HoleParent(c);
      assert Only(x) <= repr - {node} && Only(q) <= repr - {node} && (x != null ==> x != q) by {
        PlugNoDup(c, t);
        PlugNodes(c, t);
      }
      p := BypassLinks(node, x);
      forall n | n in repr - {node}
        ensures n in Nodes(Plug(c, xt)) && LinksOf(n) == LinksAt(Plug(c, xt), null, n)
      {
        SpliceWhole(c, t, xt, n);
      }
      repr := repr - {node};
      shape := Plug(c, xt);
    }

    /** The branch of `_remove_fixup` for a node with two children, whose successor is `y` and
        whose successor's right child is `x`. */
    method PromoteLinks(node: Node, y: Node, x: Node?) returns (p: Node)
      requires node.l != null && node.r != null && y.p != null && x == y.r
      requires y != node.r ==>
        y.p !in {y, node, node.l} && node.r !in {y, node.l} && (x != null ==> x !in {y, y.p, node.l, node.r})
      requires node != y && node.l != y && node.l != node && node.r != node
      requires x != node && (root == node <==> node.p == null)
      requires node.p != null ==> node.p !in {y, node, node.l, node.r, y.p}
      modifies this`root, node`color, node.l`p, y`l, y`r, y`p, y`color, Only(node.p)`l, Only(node.p)`r
      modifies (if y == node.r then {} else {y.p})`l, (if y == node.r then {} else Only(x))`p
      modifies (if y == node.r then {} else {node.r})`p
      ensures LinksOf(y) == Links(node.p, node.l, if y == node.r then x else node.r, old(node.color), old(y.key))
      ensures node.l == old(node.l) && node.r == old(node.r) && node.p == old(node.p) && node.color == old(y.color)
      ensures node.l.p == y && (y != node.r ==> node.r.p == y && old(y.p).l == x && (x != null ==> x.p == old(y.p)))
      ensures p == if y == node.r then y else old(y.p)
      ensures if old(root) == node then root == y
              else root == old(root) && node.p.l == (if old(node.p.l) == node then y else old(node.p.l))
                                     && node.p.r == (if old(node.p.l) != node then y else old(node.p.r))
    {
      node.l.p := y;
      y.l := node.l;
      if y != node.r {
        p := y.p;
        if x != null {
          x.p := y.p;
        }
        y.p.l := x;
        y.r := node.r;
        node.r.p := y;
      } else {
        p := y;
      }
      if root == node {
        root := y;
      } else if node.p.l == node {
        node.p.l := y;
      } else {
        node.p.r := y;
      }
      y.p := node.p;
      y.color, node.color := node.color, y.color;
    }

    /** The nodes that the move touches are apart. */
    ghost predicate Apart(node: Node, y: Node, x: Node?)
      reads this, node, y
    {
      && {node, y} <= repr && node != y && y.p != null && y.p in repr && y.p != y && x == y.r
      && node.r != null && node.r in repr && node.r != node && (node.r == y <==> y.p == node)
      && node.l != null && node.l in repr && node.l !in {node, y, node.r, y.p}
      && (x != null ==> x in repr && x !in {node, y, node.r, y.p, node.l})
      && (node.p != null ==> node.p in repr && node.p !in {node, y, node.r, y.p, node.l, x})
      && (root == node <==> node.p == null)
    }

    /** The same, told for every node of the tree. */
    method PromoteEverywhere(node: Node, y: Node, x: Node?) returns (p: Node)
      requires Apart(node, y, x)
      modifies this`root, repr`l, repr`r, repr`p, repr`color
      ensures forall n <- repr :: n != node ==>
        LinksOf(n) == AfterPromotion(old(LinksOf(n)), n, node, y, x, old(y.p), old(LinksOf(node)), old(y.key))
      ensures p == (if y == old(node.r) then y else old(y.p)) && node.color == old(y.color)
      ensures root == if old(node.p) == null then y else old(root)
    {
      p := PromoteLinks(node, y, x);
    }

    lemma BeforePromotion(node: Node, y: Node, x: Node?, c: Ctx<Node>, t: Tree<Node>, inner: Ctx<Node>, s: Tree<Node>)
      requires Linked() && shape == Plug(c, t) && Successor(t, inner, s) && t.left.Fork?
      requires node == t.node && y == s.node && x == RootOf(s.right)
      ensures Apart(node, y, x)
      ensures LinksOf(node) == Links(HoleParent(c), RootOf(t.left), RootOf(t.right), t.color, t.key)
      ensures LinksOf(y) == Links(if inner.Top? then node else inner.node, null, x, s.color, s.key)
      ensures inner.Top? <==> node.r == y
    {
      At(c, t);
      PromoteStages(c, t, inner, s);
      At(SuccCtx(c, t, inner, node, t.key), s);
      HoleColorAt(c, t);
      PromoteApart(c, t, inner, s);
    }

    /** Puts the successor in the place of a node with two children.  The node keeps, for the
        caller, the colour that left the tree. */
    method Promote(node: Node, y: Node, x: Node?, ghost c: Ctx<Node>, ghost t: Tree<Node>,
                   ghost inner: Ctx<Node>, ghost s: Tree<Node>)
      returns (p: Node)
      requires Linked() && shape == Plug(c, t) && Successor(t, inner, s) && t.left.Fork?
      requires node == t.node && y == s.node && x == RootOf(s.right)
      modifies this`root, this`shape, this`repr, repr`l, repr`r, repr`p, repr`color
      ensures Linked() && shape == Plug(c, Promoted(t, inner, s)) && repr == old(repr) - {node}
      ensures p == (if inner.Top? then y else inner.node) && node.color == s.color
    {
      ghost var t' := Promoted(t, inner, s);
      BeforePromotion(node, y, x, c, t, inner, s);
      p := PromoteEverywhere(node, y, x);
      forall n | n in repr - {node}
        ensures n in Nodes(Plug(c, t')) && LinksOf(n) == LinksAt(Plug(c, t'), null, n)
      {
        PromoteWhole(c, t, inner, s, n);
      }
      PlugRoot(c, t, t');
      PromoteNodes(c, t, inner, s);
      repr := repr - {node};
      shape := Plug(c, t');
    }

    /** `_remove_fixup`: takes `node` out and restores the red-black shape. */
    method Detach(node: Node) returns (out: Node)
      requires Linked() && RedBlack(shape) && node in repr
      modifies this`root, this`shape, this`repr, repr`l, repr`r, repr`p, repr`color
      ensures Linked() && RedBlack(shape) && repr == old(repr) - {node} && out == node
      ensures Drops(old(InOrder(shape)), InOrder(shape), node)
    {
      ghost var c, t := Focus(Top, shape, node);
      ghost var inner, s := Top, t;
      At(c, t);
      var y, x, p := node, null, null;
      if y.l == null {
        x := y.r;
      } else if y.r == null {
        x := y.l;
      } else {
        LinkedBelow(InRight(t.left, t.node, t.color, t.key, c), t.right);
        y, inner, s := GetMinNode(y.r, t.right, node);
        PlugCompose(inner, InRight(t.left, t.node, t.color, t.key, c), s);
        At(SuccCtx(c, t, inner, node, t.key), s);
        x := y.r;
      }
      ghost var hc, xt;
      if y != node {
        hc, xt := SuccCtx(c, t, inner, s.node, s.key), s.right;
        PromoteInOrder(c, t, inner, s);
        PromoteShortage(c, t, inner, s);
        p := Promote(node, y, x, c, t, inner, s);
        y := node;
      } else {
        hc, xt := c, if t.left.Leaf? then t.right else t.left;
        BypassInOrder(c, t, xt);
        Shortage(c, t, xt);
        p := Bypass(node, x, c, t, xt);
        if t.color == Red {
          NoShortage(c, xt);
        }
      }
      if IsBlackNode(y) {
        RemoveFixup(x, p, hc, xt);
      }
      out := y;
    }

    /** `_remove`: as `Detach`, then the caches and the count. */
    method RemoveNode(node: Node) returns (out: Node)
      requires Valid() && node in repr
      modifies this, repr`l, repr`r, repr`p, repr`color
      ensures Valid() && repr == old(repr) - {node} && out == node
      ensures Drops(old(Contents()), Contents(), node)
    {
      hide RedBlack, InOrder, Holds, NoDup;
      out := Detach(node);
      DropsSorted(old(Contents()), Contents(), node);
      RefreshCaches();
      size := size - 1;
    }

    /** `remove`: exactly the given node leaves; its links are cleared, so that it can be
        inserted again. */
    method Remove(node: Node)
      requires Valid() && node in repr
      modifies this, repr`l, repr`r, repr`p, repr`color
      ensures Valid() && repr == old(repr) - {node}
      ensures Drops(old(Contents()), Contents(), node)
      ensures node.l == null && node.r == null && node.p == null && node.key == old(node.key)
    {
      hide RedBlack, InOrder, CachesRight;
      var y := RemoveNode(node);
      y.l := null;
      y.r := null;
      y.p := null;
    }

    /** Removing a node that was just inserted gives back the tree's contents, in order. */
    method InsertThenRemove(node: Node) returns (ok: bool)
      requires Valid() && node !in repr && node.p == null && node.l == null && node.r == null
      modifies this, repr`l, repr`r, repr`p, repr`color, node`p, node`l, node`r, node`color
      ensures Valid() && Contents() == old(Contents()) && repr == old(repr)
      ensures ok <==> forall e <- old(Contents()) :: e.key != old(node.key)
      ensures node.p == null && node.l == null && node.r == null
    {
      hide Linked, RedBlack, CachesRight, Adds, Drops, InOrder;
      ok := Insert(node);
      if ok {
        ghost var added, item := Contents(), Item(node, node.key);
        ItemsKeepKeys(node);
        Remove(node);
        AddsThenDrops(old(Contents()), added, Contents(), item);
      }
    }

    lemma ItemsKeepKeys(node: Node)
      requires Valid()
      ensures Sorted(Contents()) && forall x <- Contents() :: x.node == node ==> x.key == node.key
    {
      hide RedBlack, CachesRight, Holds, NoDup;
      forall x | x in Contents() && x.node == node
        ensures x.key == node.key
      {
        var i :| 0 <= i < |Contents()| && Contents()[i] == x;
        ItemNode(i);
      }
    }

    // ---------------------------------------------------------------- lookup

    /** `_get`: the node holding a key, null exactly when no node does. */
    method Find(key: int) returns (n: Node?)
      requires Valid()
      ensures n == null <==> forall e <- Contents() :: e.key != key
      ensures n != null ==> n in repr && n.key == key && Item(n as Node, key) in Contents()
    {
      hide Holds, NoDup, RedBlack, CachesRight;
      n := root;
      ghost var c, t := Top, shape;
      while n != null
        invariant shape == Plug(c, t) && n == RootOf(t)
        invariant forall e <- Before(c) :: e.key < key
        invariant forall e <- After(c) :: key < e.key
        decreases t
      {
        Descend(c, t, key);
        if n.key < key {
          n := n.r;
          c, t := InRight(t.left, t.node, t.color, t.key, c), t.right;
        } else if n.key > key {
          n := n.l;
          c, t := InLeft(c, t.node, t.color, t.key, t.right), t.left;
        } else {
          return;
        }
      }
      PlugInOrder(c, t);
    }

    /** `_find_max_lteq`: the node with the greatest key not above `data`, null exactly when
        every key is above it. */
    method FindMaxLteq(data: int) returns (n: Node?)
      requires Valid()
      ensures n == null <==> forall e <- Contents() :: data < e.key
      ensures n != null ==> n in repr && n.key <= data && Item(n as Node, n.key) in Contents()
      ensures n != null ==> forall e <- Contents() :: e.key <= data ==> e.key <= n.key
    {
      hide InOrder, Holds, NoDup, RedBlack, CachesRight;
      var cur := root;
      n := null;
      ghost var c, t := Top, shape;
      while cur != null
        invariant shape == Plug(c, t) && cur == RootOf(t)
        invariant forall e <- Before(c) :: e.key < data
        invariant forall e <- After(c) :: data < e.key
        invariant n == (if Before(c) == [] then null else Before(c)[|Before(c)| - 1].node)
        decreases t
      {
        Descend(c, t, data);
        if cur.key < data {
          n := cur;
          cur := cur.r;
          c, t := InRight(t.left, t.node, t.color, t.key, c), t.right;
        } else if cur.key > data {
          cur := cur.l;
          c, t := InLeft(c, t.node, t.color, t.key, t.right), t.left;
        } else {
          n := cur;
          return;
        }
      }
      FloorAt(c, data);
    }

    /** At the leaf where `data` belongs, the item just before it is the floor. */
    lemma FloorAt(c: Ctx<Node>, data: int)
      requires Linked() && Sorted(InOrder(shape)) && shape == Plug(c, Leaf)
      requires forall e <- Before(c) :: e.key < data
      requires forall e <- After(c) :: data < e.key
      ensures Before(c) == [] ==> forall e <- Contents() :: data < e.key
      ensures Before(c) != [] ==> var f := Before(c)[|Before(c)| - 1];
        && f in Contents() && f.node in repr && f.node.key == f.key < data
        && (forall e <- Contents() :: e.key <= data ==> e.key <= f.key)
    {
      hide Linked, Plug, Sorted, Before, After;
      PlugInOrder(c, Leaf);
      assert Contents() == Before(c) + After(c);
      FloorIs(Before(c), After(c), data);
      if Before(c) != [] {
        ItemNode(|Before(c)| - 1);
      }
    }

    /** The node of an item holds the item's key. */
    lemma ItemNode(i: nat)
      requires Linked() && i < |InOrder(shape)|
      ensures var e := InOrder(shape)[i]; e.node in repr && e.node.key == e.key
    {
      var c, t := FocusItem(Top, shape, i);
      At(c, t);
    }

    // ---------------------------------------------------------------- order of visit

    /** `_get_next`: the node of the next item, null after the last one or at `last`. */
    method GetNext(node0: Node, last: Node?, ghost i: nat) returns (n: Node?)
      requires Linked() && i < |Contents()| && Contents()[i].node == node0
      ensures n == if node0 == last || i + 1 == |Contents()| then null else Contents()[i + 1].node
    {
      var node := node0;
      if node == last {
        return null;
      }
      ghost var c, t := FocusItem(Top, shape, i);
      PlugInOrder(c, t);
      At(c, t);
      if node.r != null {
        ghost var inner, s;
        LinkedBelow(InRight(t.left, t.node, t.color, t.key, c), t.right);
        n, inner, s := GetMinNode(node.r, t.right, node);
        return;
      }
      ClimbAt(c, t);
      while node.p != null && node == node.p.r
        invariant shape == Plug(c, t) && t.Fork? && node == t.node && node in repr && Only(node.p) <= repr
        invariant node.p == HoleParent(c) && (!c.Top? ==> (node == node.p.r <==> c.InRight?))
        invariant |Contents()| == i + 1 + |After(c)| && Contents()[i + 1..] == After(c)
        decreases Depth(c)
      {
        node := node.p;
        c, t := c.up, OneUp(c, t);
        ClimbAt(c, t);
      }
      n := node.p;
    }

    lemma ClimbAt(c: Ctx<Node>, t: Tree<Node>)
      requires Linked() && shape == Plug(c, t) && t.Fork?
      ensures t.node in repr && t.node.p == HoleParent(c) && Only(t.node.p) <= repr
      ensures !c.Top? ==> (t.node == c.node.r <==> c.InRight?) && (t.node == c.node.l <==> c.InLeft?)
    {
      At(c, t);
      if !c.Top? {
        Above(c, t);
      }
    }

    /** `_get_prev`: the node of the item before, null before the first one or at `first`. */
    method GetPrev(node0: Node, first: Node?, ghost i: nat) returns (n: Node?)
      requires Linked() && i < |Contents()| && Contents()[i].node == node0
      ensures n == if node0 == first || i == 0 then null else Contents()[i - 1].node
    {
      var node := node0;
      if node == first {
        return null;
      }
      ghost var c, t := FocusItem(Top, shape, i);
      PlugInOrder(c, t);
      At(c, t);
      if node.l != null {
        ghost var inner, s;
        LinkedBelow(InLeft(c, t.node, t.color, t.key, t.right), t.left);
        n, inner, s := GetMaxNode(node.l, t.left, node);
        return;
      }
      ClimbAt(c, t);
      while node.p != null && node == node.p.l
        invariant shape == Plug(c, t) && t.Fork? && node == t.node && node in repr && Only(node.p) <= repr
        invariant node.p == HoleParent(c) && (!c.Top? ==> (node == node.p.l <==> c.InLeft?))
        invariant i == |Before(c)| && Contents()[..i] == Before(c)
        decreases Depth(c)
      {
        node := node.p;
        c, t := c.up, OneUp(c, t);
        ClimbAt(c, t);
      }
      n := node.p;
    }

    /** The loop of `KI_PMAD_FOREACH`: from the cached minimum, `get_next` visits every node once,
        in ascending order of keys. */
    method Walk() returns (visited: seq<Node>)
      requires Valid()
      ensures |visited| == size
      ensures forall i :: 0 <= i < size ==> visited[i] == Contents()[i].node
    {
      visited := [];
      var n := cachedMin;
      while n != null
        invariant |visited| <= size
        invariant n == if |visited| == size then null else Contents()[|visited|].node
        invariant forall i :: 0 <= i < |visited| ==> visited[i] == Contents()[i].node
        decreases size - |visited|
      {
        var next := GetNext(n, null, |visited|);
        visited := visited + [n];
        n := next;
      }
    }

    // ---------------------------------------------------------------- clear

    /** The deleter: afterwards the fields of `n` hold anything. */
    static method Dispose(n: Node)
      modifies n
    {
      n.p := *;
      n.l := *;
      n.r := *;
      n.color := *;
      n.key := *;
    }

    /** The nodes not yet disposed of are as they were. */
    ghost predicate Intact(gone: set<Node>)
      reads this, repr
    {
      repr == Nodes(shape) && NoDup(shape) && forall n <- repr :: n !in gone ==> LinksOf(n) == LinksAt(shape, null, n)
    }

    lemma IntactAt(c: Ctx<Node>, t: Tree<Node>, gone: set<Node>)
      requires Intact(gone) && shape == Plug(c, t) && t.Fork? && gone <= Behind(c) + Nodes(t) - {t.node}
      ensures t.node in repr && t.node !in gone
      ensures LinksOf(t.node) == Links(HoleParent(c), RootOf(t.left), RootOf(t.right), t.color, t.key)
      ensures !c.Top? ==> c.node in repr && c.node !in gone && (c.node.r == t.node <==> c.InRight?)
    {
      PlugNoDup(c, t);
      PlugNodes(c, t);
      BehindApart(c);
      PlugLinks(c, t, t.node);
      if !c.Top? {
        PlugLinks(c, t, c.node);
        RefillLinks(c, t, t, c.node);
      }
    }

    lemma IntactBelow(c: Ctx<Node>, t: Tree<Node>, gone: set<Node>)
      requires Intact(gone) && shape == Plug(c, t) && gone !! Nodes(t)
      ensures Below(t, HoleParent(c))
    {
      PlugNoDup(c, t);
      PlugNodes(c, t);
      forall n | n in Nodes(t)
        ensures LinksOf(n) == LinksAt(t, HoleParent(c), n)
      {
        PlugLinks(c, t, n);
      }
    }

    /** What a children-first walk has behind it when it stands on the root of `t`, with or
        without the right subtree. */
    ghost predicate Standing(deleted: seq<Node>, c: Ctx<Node>, t: Tree<Node>, gone: set<Node>, both: bool)
      reads this, repr
    {
      && Intact(gone) && shape == Plug(c, t) && t.Fork?
      && gone == Behind(c) + (if both then Nodes(t.left) + Nodes(t.right) else Nodes(t.left))
      && deleted == PostBefore(c) + (if both then PostOrder(t.left) + PostOrder(t.right) else PostOrder(t.left))
    }

    /** Descends to the first node of the right subtree of `cur`. */
    method ClearDown(cur: Node, deleted: seq<Node>, ghost c: Ctx<Node>, ghost t: Tree<Node>, ghost gone: set<Node>)
      returns (n: Node, ghost c': Ctx<Node>, ghost t': Tree<Node>)
      requires Standing(deleted, c, t, gone, false) && t.right.Fork? && cur == t.node
      ensures Standing(deleted, c', t', gone, false) && n == t'.node && |PostOrder(t')| < |PostOrder(t)|
    {
      ghost var cr := InRight(t.left, t.node, t.color, t.key, c);
      ghost var inner, s;
      PlugNoDup(c, t);
      BehindApart(c);
      IntactAt(c, t, gone);
      IntactBelow(cr, t.right, gone);
      n, inner, s := GetMinNode(cur.r, t.right, cur);
      c', t' := Compose(inner, cr), s;
      PlugCompose(inner, cr, s);
      BehindDown(inner, cr);
      PlugPostOrder(inner, s);
    }

    /** Disposes of `cur`, whose subtrees are gone, and steps to its parent. */
    method ClearNode(cur: Node, deleted: seq<Node>, ghost c: Ctx<Node>, ghost t: Tree<Node>, ghost gone: set<Node>)
      returns (up: Node?, deleted': seq<Node>, ghost gone': set<Node>)
      requires Standing(deleted, c, t, gone, true) && cur == t.node
      modifies cur
      ensures up == HoleParent(c) && deleted' == deleted + [cur]
      ensures c.Top? ==> deleted' == PostOrder(shape) && Intact(gone')
      ensures c.InLeft? ==> Standing(deleted', c.up, OneUp(c, t), gone', false)
      ensures c.InRight? ==> Standing(deleted', c.up, OneUp(c, t), gone', true)
    {
      GoneAt(c, t, gone);
      up := cur.p;
      Dispose(cur);
      deleted', gone' := deleted + [cur], gone + {cur};
      assert deleted' == PostBefore(c) + PostOrder(t);
      if c.InRight? {
        Associate(PostBefore(c.up), PostOrder(c.left), PostOrder(t));
      }
    }

    /** Disposes of `cur`, whose subtrees are gone, and of its ancestors for as long as it is a
        right child. */
    method ClearUp(cur0: Node, deleted0: seq<Node>, ghost c0: Ctx<Node>, ghost t0: Tree<Node>, ghost gone0: set<Node>)
      returns (cur: Node?, deleted: seq<Node>, ghost c: Ctx<Node>, ghost t: Tree<Node>, ghost gone: set<Node>)
      requires Standing(deleted0, c0, t0, gone0, true) && cur0 == t0.node
      modifies repr
      ensures Intact(gone) && |deleted0| < |deleted|
      ensures cur == null ==> deleted == PostOrder(shape)
      ensures cur != null ==> Standing(deleted, c, t, gone, false) && cur == t.node
    {
      cur, deleted, c, t, gone := cur0, deleted0, c0, t0, gone0;
      GoneAt(c, t, gone);
      while cur.p != null && cur == cur.p.r
        invariant cur != null && Standing(deleted, c, t, gone, true) && cur == t.node && |deleted0| <= |deleted|
        invariant cur in repr && cur.p == HoleParent(c)
        invariant (!c.Top? ==> cur.p in repr && (cur.p.r == cur <==> c.InRight?))
        decreases Depth(c)
      {
        cur, deleted, gone := ClearNode(cur, deleted, c, t, gone);
        c, t := c.up, OneUp(c, t);
        GoneAt(c, t, gone);
      }
      cur, deleted, gone := ClearNode(cur, deleted, c, t, gone);
      if !c.Top? {
        c, t := c.up, OneUp(c, t);
      }
    }

    lemma GoneAt(c: Ctx<Node>, t: Tree<Node>, gone: set<Node>)
      requires Intact(gone) && shape == Plug(c, t) && t.Fork? && gone == Behind(c) + Nodes(t.left) + Nodes(t.right)
      ensures t.node in repr && t.node !in gone && t.node.p == HoleParent(c)
      ensures !c.Top? ==> c.node in repr && (c.node.r == t.node <==> c.InRight?)
    {
      PlugNoDup(c, t);
      BehindApart(c);
      IntactAt(c, t, gone);
    }

    lemma IntactHere(deleted: seq<Node>, c: Ctx<Node>, t: Tree<Node>, gone: set<Node>)
      requires Standing(deleted, c, t, gone, false)
      ensures t.node in repr && t.node.r == RootOf(t.right) && |deleted| < |PostOrder(shape)|
      ensures t.right.Leaf? ==> Standing(deleted, c, t, gone, true)
    {
      PlugNoDup(c, t);
      BehindApart(c);
      IntactAt(c, t, gone);
      PlugPostOrder(c, t);
    }

    /** The loop of `clear`.  The source runs it up to the parent of the root, which is null. */
    method ClearAll() returns (deleted: seq<Node>)
      requires Linked() && root != null
      modifies repr
      ensures deleted == PostOrder(shape)
    {
      var cur: Node?;
      ghost var c, t;
      ghost var gone: set<Node> := {};
      deleted := [];
      cur, c, t := GetMinNode(root, shape, null);
      BehindDown(c, Top);
      ComposeTop(c);
      while cur != null
        invariant cur == null ==> deleted == PostOrder(shape)
        invariant cur != null ==> Standing(deleted, c, t, gone, false) && cur == t.node
        decreases |PostOrder(shape)| - |deleted|, if cur == null then 0 else 1 + |PostOrder(t)|
      {
        IntactHere(deleted, c, t, gone);
        if cur.r != null {
          cur, c, t := ClearDown(cur, deleted, c, t, gone);
        } else {
          cur, deleted, c, t, gone := ClearUp(cur, deleted, c, t, gone);
        }
      }
    }

    /** `clear`: hands every node to the deleter once, children before parents, and never relies
        on the fields of a node that was handed over. */
    method Clear() returns (deleted: seq<Node>)
      requires Valid()
      modifies this, repr
      ensures deleted == PostOrder(old(shape))
      ensures Valid() && Contents() == [] && repr == {}
    {
      deleted := [];
      if root != null {
        deleted := ClearAll();
        root := null;
        size := 0;
        shape, repr := Leaf, {};
      }
      cachedMax := null;
      cachedMin := null;
    }
  }
}
