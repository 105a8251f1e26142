/** The value a red-black tree of pointers stands for, and the focus ("zipper")
    that the fixup loops of the pointer tree move up and down.

    A `Tree<N>` carries, at each fork, the identity of the heap node it stands for
    together with the colour and the key stored there.  A `Ctx<N>` is a tree with one
    missing subtree; `Plug` puts a subtree back.  All red-black facts are stated here,
    without a heap. */
module Shape {
  import opened Arith

  datatype Color = Black | Red

  datatype Item<N> = Item(node: N, key: int)

  datatype Tree<N> =
    | Leaf
    | Fork(left: Tree<N>, node: N, color: Color, key: int, right: Tree<N>)

  datatype Ctx<N> =
    | Top
    | InLeft(up: Ctx<N>, node: N, color: Color, key: int, right: Tree<N>)
    | InRight(left: Tree<N>, node: N, color: Color, key: int, up: Ctx<N>)

  // ------------------------------------------------------------------ contents

  ghost function InOrder<N>(t: Tree<N>): seq<Item<N>> {
    match t
    case Leaf => []
    case Fork(l, n, _, k, r) => InOrder(l) + [Item(n, k)] + InOrder(r)
  }

  ghost function Nodes<N>(t: Tree<N>): set<N> {
    match t
    case Leaf => {}
    case Fork(l, n, _, _, r) => Nodes(l) + {n} + Nodes(r)
  }

  /** Keys strictly increase along the in-order walk. */
  ghost predicate Sorted<N>(s: seq<Item<N>>) {
    forall i, j :: 0 <= i < j < |s| ==> s[i].key < s[j].key
  }

  function Plug<N>(c: Ctx<N>, t: Tree<N>): Tree<N> {
    match c
    case Top => t
    case InLeft(up, n, co, k, r) => Plug(up, Fork(t, n, co, k, r))
    case InRight(l, n, co, k, up) => Plug(up, Fork(l, n, co, k, t))
  }

  /** Items before the hole. */
  ghost function Before<N>(c: Ctx<N>): seq<Item<N>> {
    match c
    case Top => []
    case InLeft(up, _, _, _, _) => Before(up)
    case InRight(l, n, _, k, up) => Before(up) + (InOrder(l) + [Item(n, k)])
  }

  /** Items after the hole. */
  ghost function After<N>(c: Ctx<N>): seq<Item<N>> {
    match c
    case Top => []
    case InLeft(up, n, _, k, r) => ([Item(n, k)] + InOrder(r)) + After(up)
    case InRight(_, _, _, _, up) => After(up)
  }

  ghost function CtxNodes<N>(c: Ctx<N>): set<N> {
    match c
    case Top => {}
    case InLeft(up, n, _, _, r) => {n} + Nodes(r) + CtxNodes(up)
    case InRight(l, n, _, _, up) => {n} + Nodes(l) + CtxNodes(up)
  }

  function Depth<N>(c: Ctx<N>): nat {
    match c
    case Top => 0
    case InLeft(up, _, _, _, _) => 1 + Depth(up)
    case InRight(_, _, _, _, up) => 1 + Depth(up)
  }

  /** `inner` sits in the hole of `outer`. */
  function Compose<N>(inner: Ctx<N>, outer: Ctx<N>): Ctx<N> {
    match inner
    case Top => outer
    case InLeft(up, n, co, k, r) => InLeft(Compose(up, outer), n, co, k, r)
    case InRight(l, n, co, k, up) => InRight(l, n, co, k, Compose(up, outer))
  }

  lemma {:induction false} PlugInOrder<N>(c: Ctx<N>, t: Tree<N>)
    ensures InOrder(Plug(c, t)) == Before(c) + InOrder(t) + After(c)
  {
    match c
    case Top =>
    case InLeft(up, n, co, k, r) =>
      PlugInOrder(up, Fork(t, n, co, k, r));
      Regroup(Before(up), InOrder(t), [Item(n, k)], InOrder(r), After(up));
    case InRight(l, n, co, k, up) =>
      PlugInOrder(up, Fork(l, n, co, k, t));
      Regroup(Before(up), InOrder(l), [Item(n, k)], InOrder(t), After(up));
  }

  lemma Regroup<T>(a: seq<T>, b: seq<T>, c: seq<T>, d: seq<T>, e: seq<T>)
    ensures a + (b + c + d) + e == a + b + ((c + d) + e)
    ensures a + (b + c + d) + e == (a + (b + c)) + d + e
  {
  }

  lemma {:induction false} PlugNodes<N>(c: Ctx<N>, t: Tree<N>)
    ensures Nodes(Plug(c, t)) == Nodes(t) + CtxNodes(c)
  {
    match c
    case Top =>
    case InLeft(up, n, co, k, r) => PlugNodes(up, Fork(t, n, co, k, r));
    case InRight(l, n, co, k, up) => PlugNodes(up, Fork(l, n, co, k, t));
  }

  lemma {:induction false} PlugCompose<N>(inner: Ctx<N>, outer: Ctx<N>, t: Tree<N>)
    ensures Plug(Compose(inner, outer), t) == Plug(outer, Plug(inner, t))
  {
    match inner
    case Top =>
    case InLeft(up, n, co, k, r) => PlugCompose(up, outer, Fork(t, n, co, k, r));
    case InRight(l, n, co, k, up) => PlugCompose(up, outer, Fork(l, n, co, k, t));
  }

  // ------------------------------------------------------------------ each node once

  ghost predicate NoDup<N>(t: Tree<N>) {
    match t
    case Leaf => true
    case Fork(l, n, _, _, r) =>
      n !in Nodes(l) && n !in Nodes(r) && Nodes(l) !! Nodes(r) && NoDup(l) && NoDup(r)
  }

  ghost predicate NoDupCtx<N>(c: Ctx<N>) {
    match c
    case Top => true
    case InLeft(up, n, _, _, t) =>
      n !in Nodes(t) && n !in CtxNodes(up) && Nodes(t) !! CtxNodes(up) && NoDup(t) && NoDupCtx(up)
    case InRight(t, n, _, _, up) =>
      n !in Nodes(t) && n !in CtxNodes(up) && Nodes(t) !! CtxNodes(up) && NoDup(t) && NoDupCtx(up)
  }

  lemma {:induction false} PlugNoDup<N>(c: Ctx<N>, t: Tree<N>)
    ensures NoDup(Plug(c, t)) <==> NoDup(t) && NoDupCtx(c) && Nodes(t) !! CtxNodes(c)
  {
    match c
    case Top =>
    case InLeft(up, n, co, k, r) => PlugNoDup(up, Fork(t, n, co, k, r));
    case InRight(l, n, co, k, up) => PlugNoDup(up, Fork(l, n, co, k, t));
  }

  // ------------------------------------------------------------------ children before parents

  ghost function PostOrder<N>(t: Tree<N>): seq<N> {
    match t
    case Leaf => []
    case Fork(l, n, _, _, r) => PostOrder(l) + PostOrder(r) + [n]
  }

  /** What comes before the hole in the order where children precede their parent. */
  ghost function PostBefore<N>(c: Ctx<N>): seq<N> {
    match c
    case Top => []
    case InLeft(up, _, _, _, _) => PostBefore(up)
    case InRight(l, _, _, _, up) => PostBefore(up) + PostOrder(l)
  }

  ghost function PostAfter<N>(c: Ctx<N>): seq<N> {
    match c
    case Top => []
    case InLeft(up, n, _, _, r) => PostOrder(r) + [n] + PostAfter(up)
    case InRight(_, n, _, _, up) => [n] + PostAfter(up)
  }

  /** Every subtree is one stretch of the order, its root last. */
  lemma {:induction false} PlugPostOrder<N>(c: Ctx<N>, t: Tree<N>)
    ensures PostOrder(Plug(c, t)) == PostBefore(c) + PostOrder(t) + PostAfter(c)
  {
    match c
    case Top =>
    case InLeft(up, n, co, k, r) =>
      PlugPostOrder(up, Fork(t, n, co, k, r));
      Regroup2(PostBefore(up), PostOrder(t), PostOrder(r), [n], PostAfter(up));
    case InRight(l, n, co, k, up) =>
      PlugPostOrder(up, Fork(l, n, co, k, t));
      Regroup2(PostBefore(up), PostOrder(l), PostOrder(t), [n], PostAfter(up));
  }

  lemma Regroup2<T>(a: seq<T>, b: seq<T>, c: seq<T>, d: seq<T>, e: seq<T>)
    ensures a + (b + c + d) + e == a + b + (c + d + e)
    ensures a + (b + c + d) + e == (a + b) + c + (d + e)
  {
  }

  /** The order names every node exactly once. */
  lemma {:induction false} PostOrderOnce<N>(t: Tree<N>)
    requires NoDup(t)
    ensures multiset(PostOrder(t)) == multiset(Nodes(t))
  {
    if t.Fork? {
      PostOrderOnce(t.left);
      PostOrderOnce(t.right);
      Union3(Nodes(t.left), t.node, Nodes(t.right));
    }
  }

  lemma Union3<N>(a: set<N>, n: N, b: set<N>)
    requires a !! b && n !in a && n !in b
    ensures multiset(a + {n} + b) == multiset(a) + multiset(b) + multiset{n}
  {
  }

  // ------------------------------------------------------------------ colours and black heights

  predicate IsRed<N>(t: Tree<N>) {
    t.Fork? && t.color == Red
  }

  /** Black nodes on the way to any leaf, the root included. */
  function Bh<N>(t: Tree<N>): nat {
    match t
    case Leaf => 0
    case Fork(l, _, c, _, _) => Bh(l) + if c == Black then 1 else 0
  }

  /** All ways down from a node pass the same number of black nodes. */
  predicate Balanced<N>(t: Tree<N>) {
    match t
    case Leaf => true
    case Fork(l, _, _, _, r) => Balanced(l) && Balanced(r) && Bh(l) == Bh(r)
  }

  /** No red node has a red child. */
  predicate NoRedRed<N>(t: Tree<N>) {
    match t
    case Leaf => true
    case Fork(l, _, c, _, r) =>
      NoRedRed(l) && NoRedRed(r) && (c == Red ==> !IsRed(l) && !IsRed(r))
  }

  predicate RedBlack<N>(t: Tree<N>) {
    Balanced(t) && NoRedRed(t) && !IsRed(t)
  }

  /** Colour of the node just above the hole; black when there is none. */
  function HoleColor<N>(c: Ctx<N>): Color {
    if c.Top? then Black else c.color
  }

  /** The whole is balanced once a balanced tree of black height `h` fills the hole. */
  predicate CtxBalanced<N>(c: Ctx<N>, h: nat) {
    match c
    case Top => true
    case InLeft(up, _, co, _, r) =>
      Balanced(r) && Bh(r) == h && CtxBalanced(up, h + if co == Black then 1 else 0)
    case InRight(l, _, co, _, up) =>
      Balanced(l) && Bh(l) == h && CtxBalanced(up, h + if co == Black then 1 else 0)
  }

  /** No red-red edge outside the hole, and a black outermost node. */
  predicate CtxColored<N>(c: Ctx<N>) {
    match c
    case Top => true
    case InLeft(up, _, co, _, r) =>
      NoRedRed(r) && (co == Red ==> !IsRed(r) && HoleColor(up) == Black && !up.Top?) && CtxColored(up)
    case InRight(l, _, co, _, up) =>
      NoRedRed(l) && (co == Red ==> !IsRed(l) && HoleColor(up) == Black && !up.Top?) && CtxColored(up)
  }

  lemma {:induction false} PlugBalanced<N>(c: Ctx<N>, t: Tree<N>)
    ensures Balanced(Plug(c, t)) <==> Balanced(t) && CtxBalanced(c, Bh(t))
  {
    match c
    case Top =>
    case InLeft(up, n, co, k, r) => PlugBalanced(up, Fork(t, n, co, k, r));
    case InRight(l, n, co, k, up) => PlugBalanced(up, Fork(l, n, co, k, t));
  }

  lemma {:induction false} PlugColored<N>(c: Ctx<N>, t: Tree<N>)
    ensures NoRedRed(Plug(c, t)) && !IsRed(Plug(c, t))
       <==> NoRedRed(t) && CtxColored(c) && (IsRed(t) ==> HoleColor(c) == Black && !c.Top?)
  {
    match c
    case Top =>
    case InLeft(up, n, co, k, r) => PlugColored(up, Fork(t, n, co, k, r));
    case InRight(l, n, co, k, up) => PlugColored(up, Fork(l, n, co, k, t));
  }

  // ------------------------------------------------------------------ insertion, one step at a time

  /** What the insertion loop keeps: everything is in order except, perhaps, the edge between
      the red tree in the hole and the node above it (or the red tree being the root). */
  predicate Inserting<N>(c: Ctx<N>, t: Tree<N>) {
    IsRed(t) && Balanced(t) && NoRedRed(t) && CtxBalanced(c, Bh(t)) && CtxColored(c)
  }

  lemma InsertingDone<N>(c: Ctx<N>, t: Tree<N>)
    requires Inserting(c, t) && HoleColor(c) == Black
    ensures if c.Top? then RedBlack(t.(color := Black)) else RedBlack(Plug(c, t))
  {
    PlugBalanced(c, t);
    PlugColored(c, t);
  }

  /** Filling a leaf of a red-black tree with one red node. */
  lemma InsertingStart<N>(c: Ctx<N>, n: N, k: int)
    requires RedBlack(Plug(c, Leaf))
    ensures Inserting(c, Fork(Leaf, n, Red, k, Leaf))
  {
    PlugBalanced(c, Leaf);
    PlugColored(c, Leaf);
  }

  function OneUp<N>(c: Ctx<N>, t: Tree<N>): Tree<N>
    requires !c.Top?
  {
    if c.InLeft? then Fork(t, c.node, c.color, c.key, c.right) else Fork(c.left, c.node, c.color, c.key, t)
  }

  /** A red parent has a black parent itself. */
  lemma RedParent<N>(c: Ctx<N>, t: Tree<N>)
    requires Inserting(c, t) && HoleColor(c) == Red
    ensures !c.Top? && !c.up.Top? && c.up.color == Black
  {
  }

  function Blacken<N>(t: Tree<N>): Tree<N>
    requires t.Fork?
  {
    t.(color := Black)
  }

  /** Red uncle: parent and uncle turn black, the grandparent red. */
  lemma RedUncle<N>(c: Ctx<N>, t: Tree<N>)
    requires Inserting(c, t) && HoleColor(c) == Red
    requires !c.up.Top? && IsRed(if c.up.InLeft? then c.up.right else c.up.left)
    ensures var g := c.up;
      var p := Blacken(OneUp(c, t));
      Inserting(g.up, if g.InLeft? then Fork(p, g.node, Red, g.key, Blacken(g.right))
                      else Fork(Blacken(g.left), g.node, Red, g.key, p))
  {
    var p, u := Blacken(OneUp(c, t)), if c.up.InLeft? then c.up.right else c.up.left;
    assert Balanced(p) && NoRedRed(p) && Bh(p) == Bh(t) + 1;
    assert CtxBalanced(c.up, Bh(t)) && CtxColored(c.up);
    assert Balanced(u) && NoRedRed(u) && Bh(u) == Bh(t);
    assert Balanced(Blacken(u)) && NoRedRed(Blacken(u)) && Bh(Blacken(u)) == Bh(t) + 1;
  }

  /** Black uncle on the right, after the rotations: `p` is the new black top and the old
      grandparent its red right child. */
  lemma BlackUncleRight<N>(g: Ctx<N>, a: Tree<N>, p: N, kp: int, b: Tree<N>)
    requires g.InLeft? && g.color == Black && !IsRed(g.right)
    requires Balanced(a) && NoRedRed(a) && Balanced(b) && NoRedRed(b) && !IsRed(b)
    requires Bh(a) == Bh(b) && CtxBalanced(g, Bh(a)) && CtxColored(g)
    ensures Inserting(InRight(a, p, Black, kp, g.up), Fork(b, g.node, Red, g.key, g.right))
  {
  }

  lemma BlackUncleLeft<N>(g: Ctx<N>, a: Tree<N>, p: N, kp: int, b: Tree<N>)
    requires g.InRight? && g.color == Black && !IsRed(g.left)
    requires Balanced(a) && NoRedRed(a) && Balanced(b) && NoRedRed(b) && !IsRed(b)
    requires Bh(a) == Bh(b) && CtxBalanced(g, Bh(a)) && CtxColored(g)
    ensures Inserting(InLeft(g.up, p, Black, kp, a), Fork(g.left, g.node, Red, g.key, b))
  {
  }

  // ------------------------------------------------------------------ removal, one step at a time

  function Darkened<N>(t: Tree<N>): Tree<N> {
    if t.Fork? then Blacken(t) else t
  }

  /** What the removal loop keeps: the tree in the hole is one black node short, and may be
      red below a red parent or with red children; all else is in order. */
  predicate Removing<N>(c: Ctx<N>, t: Tree<N>) {
    Balanced(t) && NoRedRed(Darkened(t)) && CtxBalanced(c, Bh(t) + 1) && CtxColored(c)
  }

  lemma RemovingDone<N>(c: Ctx<N>, t: Tree<N>)
    requires Removing(c, t) && (IsRed(t) || c.Top?)
    ensures RedBlack(Plug(c, Darkened(t)))
  {
    PlugBalanced(c, Darkened(t));
    PlugColored(c, Darkened(t));
  }

  function Sibling<N>(c: Ctx<N>): Tree<N>
    requires !c.Top?
  {
    if c.InLeft? then c.right else c.left
  }

  lemma SiblingExists<N>(c: Ctx<N>, t: Tree<N>)
    requires Removing(c, t) && !c.Top?
    ensures Sibling(c).Fork?
  {
  }

  /** Red sibling, on the right: after the rotation the sibling is black. */
  lemma RedSiblingRight<N>(c: Ctx<N>, t: Tree<N>)
    requires Removing(c, t) && !IsRed(t) && c.InLeft? && IsRed(c.right)
    ensures c.color == Black && c.right.left.Fork? && !IsRed(c.right.left)
    ensures var up := InLeft(c.up, c.right.node, Black, c.right.key, c.right.right);
      Removing(InLeft(up, c.node, Red, c.key, c.right.left), t)
  {
    assert Balanced(c.right) && Bh(c.right) == Bh(t) + 1 && NoRedRed(c.right);
  }

  lemma RedSiblingLeft<N>(c: Ctx<N>, t: Tree<N>)
    requires Removing(c, t) && !IsRed(t) && c.InRight? && IsRed(c.left)
    ensures c.color == Black && c.left.right.Fork? && !IsRed(c.left.right)
    ensures var up := InRight(c.left.left, c.left.node, Black, c.left.key, c.up);
      Removing(InRight(c.left.right, c.node, Red, c.key, up), t)
  {
    assert Balanced(c.left) && Bh(c.left) == Bh(t) + 1 && NoRedRed(c.left);
  }

  /** Black sibling with black children: it turns red and the shortage moves up. */
  lemma BlackNephews<N>(c: Ctx<N>, t: Tree<N>)
    requires Removing(c, t) && !IsRed(t) && !c.Top? && Sibling(c).Fork? && Sibling(c).color == Black
    requires !IsRed(Sibling(c).left) && !IsRed(Sibling(c).right)
    ensures var w := Sibling(c).(color := Red);
      Removing(c.up, if c.InLeft? then Fork(t, c.node, c.color, c.key, w) else Fork(w, c.node, c.color, c.key, t))
  {
    var s := Sibling(c);
    var w := s.(color := Red);
    assert Balanced(s) && NoRedRed(s) && Bh(s) == Bh(t) + 1;
    assert Balanced(w) && NoRedRed(w) && Bh(w) == Bh(t);
  }

  /** Black sibling whose far child is red: one rotation ends the shortage. */
  lemma RedFarNephewRight<N>(c: Ctx<N>, t: Tree<N>)
    requires Removing(c, t) && !IsRed(t) && c.InLeft? && c.right.Fork? && c.right.color == Black && IsRed(c.right.right)
    ensures var w := c.right;
      RedBlack(Plug(c.up, Fork(Fork(t, c.node, Black, c.key, w.left), w.node, c.color, w.key, Blacken(w.right))))
  {
    var w := c.right;
    assert Balanced(w) && NoRedRed(w) && Bh(w) == Bh(t) + 1;
    assert Balanced(w.right) && NoRedRed(w.right) && Bh(w.right) == Bh(t);
    var a, b := Fork(t, c.node, Black, c.key, w.left), Blacken(w.right);
    assert Darkened(t) == t;
    assert Balanced(a) && NoRedRed(a) && Bh(a) == Bh(t) + 1;
    assert Balanced(b) && NoRedRed(b) && Bh(b) == Bh(t) + 1;
    var t' := Fork(a, w.node, c.color, w.key, b);
    PlugBalanced(c.up, t');
    PlugColored(c.up, t');
  }

  lemma RedFarNephewLeft<N>(c: Ctx<N>, t: Tree<N>)
    requires Removing(c, t) && !IsRed(t) && c.InRight? && c.left.Fork? && c.left.color == Black && IsRed(c.left.left)
    ensures var w := c.left;
      RedBlack(Plug(c.up, Fork(Blacken(w.left), w.node, c.color, w.key, Fork(w.right, c.node, Black, c.key, t))))
  {
    var w := c.left;
    assert Balanced(w) && NoRedRed(w) && Bh(w) == Bh(t) + 1;
    assert Balanced(w.left) && NoRedRed(w.left) && Bh(w.left) == Bh(t);
    var a, b := Fork(w.right, c.node, Black, c.key, t), Blacken(w.left);
    assert Darkened(t) == t;
    assert Balanced(a) && NoRedRed(a) && Bh(a) == Bh(t) + 1;
    assert Balanced(b) && NoRedRed(b) && Bh(b) == Bh(t) + 1;
    var t' := Fork(b, w.node, c.color, w.key, a);
    PlugBalanced(c.up, t');
    PlugColored(c.up, t');
  }

  /** Black sibling whose near child alone is red: a rotation puts the red child on the far side. */
  lemma RedNearNephewRight<N>(c: Ctx<N>, t: Tree<N>)
    requires Removing(c, t) && !IsRed(t) && c.InLeft? && c.right.Fork? && c.right.color == Black
    requires !IsRed(c.right.right) && IsRed(c.right.left)
    ensures var w := c.right;
      var r := Fork(w.left.right, w.node, Red, w.key, w.right);
      Removing(InLeft(c.up, c.node, c.color, c.key, Fork(w.left.left, w.left.node, Black, w.left.key, r)), t)
  {
    var w := c.right;
    assert Balanced(w) && NoRedRed(w) && Bh(w) == Bh(t) + 1;
    assert Balanced(w.left) && NoRedRed(w.left) && Bh(w.left) == Bh(t);
    var r := Fork(w.left.right, w.node, Red, w.key, w.right);
    assert Balanced(r) && NoRedRed(r) && Bh(r) == Bh(t);
  }

  lemma RedNearNephewLeft<N>(c: Ctx<N>, t: Tree<N>)
    requires Removing(c, t) && !IsRed(t) && c.InRight? && c.left.Fork? && c.left.color == Black
    requires !IsRed(c.left.left) && IsRed(c.left.right)
    ensures var w := c.left;
      var l := Fork(w.left, w.node, Red, w.key, w.right.left);
      Removing(InRight(Fork(l, w.right.node, Black, w.right.key, w.right.right), c.node, c.color, c.key, c.up), t)
  {
    var w := c.left;
    assert Balanced(w) && NoRedRed(w) && Bh(w) == Bh(t) + 1;
    assert Balanced(w.right) && NoRedRed(w.right) && Bh(w.right) == Bh(t);
    var l := Fork(w.left, w.node, Red, w.key, w.right.left);
    assert Balanced(l) && NoRedRed(l) && Bh(l) == Bh(t);
  }

  /** Which node and key stand at one place of a context does not matter to its balance. */
  lemma {:induction false} Relabel<N>(inner: Ctx<N>, l: Tree<N>, co: Color, c: Ctx<N>,
                                      n: N, k: int, n': N, k': int, h: nat)
    ensures var a, b := Compose(inner, InRight(l, n, co, k, c)), Compose(inner, InRight(l, n', co, k', c));
      && CtxBalanced(a, h) == CtxBalanced(b, h) && CtxColored(a) == CtxColored(b)
      && HoleColor(a) == HoleColor(b) && !a.Top? && !b.Top?
  {
    match inner
    case Top =>
    case InLeft(up, _, co', _, _) => Relabel(up, l, co, c, n, k, n', k', h + if co' == Black then 1 else 0);
    case InRight(_, _, co', _, up) => Relabel(up, l, co, c, n, k, n', k', h + if co' == Black then 1 else 0);
  }

  /** A fork leaves and one of its subtrees, of the height it had, stays. */
  lemma Shortage<N>(c: Ctx<N>, t: Tree<N>, x: Tree<N>)
    requires t.Fork? && RedBlack(Plug(c, t)) && (x == t.left || x == t.right)
    ensures if t.color == Black then Removing(c, x)
            else Balanced(x) && NoRedRed(x) && !IsRed(x) && CtxBalanced(c, Bh(x)) && CtxColored(c)
  {
    hide Balanced, NoRedRed, CtxBalanced, CtxColored, Plug, Bh, Darkened;
    PlugBalanced(c, t);
    PlugColored(c, t);
    Subtree(t, x);
  }

  lemma {:induction false} Subtree<N>(t: Tree<N>, x: Tree<N>)
    requires t.Fork? && Balanced(t) && NoRedRed(t) && (x == t.left || x == t.right)
    ensures Balanced(x) && NoRedRed(x) && NoRedRed(Darkened(x)) && (t.color == Red ==> !IsRed(x))
    ensures Bh(t) == Bh(x) + if t.color == Black then 1 else 0
  {
  }

  lemma NoShortage<N>(c: Ctx<N>, x: Tree<N>)
    requires Balanced(x) && NoRedRed(x) && !IsRed(x) && CtxBalanced(c, Bh(x)) && CtxColored(c)
    ensures RedBlack(Plug(c, x))
  {
    PlugBalanced(c, x);
    PlugColored(c, x);
  }

  // ------------------------------------------------------------------ height

  function Height<N>(t: Tree<N>): nat {
    match t
    case Leaf => 0
    case Fork(l, _, _, _, r) => 1 + if Height(l) < Height(r) then Height(r) else Height(l)
  }

  lemma {:induction false} BlackHeightBounds<N>(t: Tree<N>)
    requires Balanced(t) && NoRedRed(t)
    ensures Pow2(Bh(t)) <= |InOrder(t)| + 1
    ensures Height(t) <= 2 * Bh(t) + if IsRed(t) then 1 else 0
    decreases t
  {
    if t.Fork? {
      BlackHeightBounds(t.left);
      BlackHeightBounds(t.right);
    }
  }

  /** The height is at most twice the binary logarithm of the number of items plus one. */
  lemma HeightBound<N>(t: Tree<N>)
    requires RedBlack(t)
    ensures Pow2(Height(t)) <= (|InOrder(t)| + 1) * (|InOrder(t)| + 1)
  {
    BlackHeightBounds(t);
    Pow2Monotone(Height(t), Bh(t) + Bh(t));
    Pow2Add(Bh(t), Bh(t));
    Squares(Pow2(Bh(t)), |InOrder(t)| + 1);
  }

  lemma Squares(p: nat, n: nat)
    requires p <= n
    ensures p * p <= n * n
  {
    assert p * p <= p * n <= n * n;
  }
}
