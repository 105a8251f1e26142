/** The doubly linked list of kfxx, whose nodes the hash set relinks in place. */
module ListModel {

  class ListNode<T> {
    var prev: ListNode?<T>
    var next: ListNode?<T>
    var data: T

    constructor (d: T)
      ensures prev == null && next == null && data == d
    {
      prev, next, data := null, null, d;
    }
  }

  ghost function Only<T>(n: ListNode?<T>): set<ListNode<T>> {
    if n == null then {} else {n}
  }

  /** The neighbours that position `i` of a list must have. */
  ghost function PrevAt<T>(s: seq<ListNode<T>>, i: int): ListNode?<T>
    requires 0 <= i <= |s|
  {
    if i == 0 then null else s[i - 1]
  }

  ghost function NextAt<T>(s: seq<ListNode<T>>, i: int): ListNode?<T>
    requires -1 <= i < |s|
  {
    if i + 1 == |s| then null else s[i + 1]
  }

  ghost predicate Distinct<T>(s: seq<ListNode<T>>) {
    forall i, j :: 0 <= i < j < |s| ==> s[i] != s[j]
  }

  ghost predicate Linked<T>(s: seq<ListNode<T>>)
    reads s
  {
    && Distinct(s)
    && (forall i :: 0 <= i < |s| ==> s[i].prev == PrevAt(s, i))
    && (forall i :: 0 <= i < |s| ==> s[i].next == NextAt(s, i))
  }

  ghost function InsertAt<T>(s: seq<ListNode<T>>, k: int, n: ListNode<T>): seq<ListNode<T>>
    requires 0 <= k <= |s|
  {
    s[..k] + [n] + s[k..]
  }

  ghost function RemoveAt<T>(s: seq<ListNode<T>>, k: int): seq<ListNode<T>>
    requires 0 <= k < |s|
  {
    s[..k] + s[k + 1..]
  }

  lemma InsertShape<T>(s: seq<ListNode<T>>, k: nat, n: ListNode<T>, i: nat)
    requires k <= |s| && i <= |s|
    ensures var s' := InsertAt(s, k, n);
      && |s'| == |s| + 1 && s'[k] == n
      && (if i < k then s'[i] == s[i] else i > k ==> s'[i] == s[i - 1])
      && PrevAt(s', i) == (if i <= k then PrevAt(s, i) else if i == k + 1 then n else PrevAt(s, i - 1))
      && NextAt(s', i) == (if i >= k then NextAt(s, i - 1) else if i + 1 == k then n else NextAt(s, i))
  {
  }

  lemma InsertDistinct<T>(s: seq<ListNode<T>>, k: nat, n: ListNode<T>)
    requires k <= |s| && Distinct(s) && n !in s
    ensures Distinct(InsertAt(s, k, n))
  {
    var s' := InsertAt(s, k, n);
    forall i, j | 0 <= i < j < |s'|
      ensures s'[i] != s'[j]
    {
      InsertShape(s, k, n, i);
      InsertShape(s, k, n, j);
    }
  }

  lemma RemoveShape<T>(s: seq<ListNode<T>>, k: nat, i: nat)
    requires k < |s| && i + 1 < |s|
    ensures var s' := RemoveAt(s, k);
      && |s'| == |s| - 1
      && s'[i] == (if i < k then s[i] else s[i + 1])
      && PrevAt(s', i) == (if i <= k then PrevAt(s, i) else PrevAt(s, i + 1))
      && NextAt(s', i) == (if i >= k then NextAt(s, i + 1) else if i + 1 == k then NextAt(s, k) else NextAt(s, i))
  {
  }

  lemma RemoveDistinct<T>(s: seq<ListNode<T>>, k: nat)
    requires k < |s| && Distinct(s)
    ensures Distinct(RemoveAt(s, k))
  {
    var s' := RemoveAt(s, k);
    forall i, j | 0 <= i < j < |s'|
      ensures s'[i] != s'[j]
    {
      RemoveShape(s, k, i);
      RemoveShape(s, k, j);
    }
  }

  /** The neighbours of the gap before position `k`. */
  lemma AroundGap<T>(s: seq<ListNode<T>>, k: nat)
    requires k <= |s|
    ensures PrevAt(s, k) == if k == 0 then null else s[k - 1]
    ensures NextAt(s, k - 1) == if k == |s| then null else s[k]
  {
  }

  lemma Ends<T>(s: seq<ListNode<T>>)
    ensures PrevAt(s, 0) == null && NextAt(s, |s| - 1) == null
    ensures s != [] ==> NextAt(s, -1) == s[0] && PrevAt(s, |s|) == s[|s| - 1]
  {
  }

  lemma RemoveFirst<T>(s: seq<ListNode<T>>)
    requires s != []
    ensures RemoveAt(s, 0) == s[1..]
    ensures Distinct(s) ==> s[0] !in s[1..]
  {
  }

  lemma RemoveEnds<T>(s: seq<ListNode<T>>, k: nat)
    requires k < |s|
    ensures var s' := RemoveAt(s, k);
      && |s'| == |s| - 1
      && NextAt(s', -1) == (if k == 0 then NextAt(s, 0) else NextAt(s, -1))
      && PrevAt(s', |s'|) == (if k + 1 == |s| then PrevAt(s, k) else PrevAt(s, |s|))
  {
  }

  class List<T> {
    var first: ListNode?<T>
    var last: ListNode?<T>
    var length: nat
    ghost var nodes: seq<ListNode<T>>

    constructor ()
      ensures Valid() && nodes == []
    {
      first, last, length, nodes := null, null, 0, [];
    }

    /** The nodes in order; `first`, `last`, `length` and all links agree with it. */
    ghost predicate Valid()
      reads this, nodes
    {
      Linked(nodes) && length == |nodes| && first == NextAt(nodes, -1) && last == PrevAt(nodes, |nodes|)
    }

    /** The assignments of `_prepend`. */
    method PrependLinks(dest: ListNode?<T>, node: ListNode<T>)
      requires dest != node && (dest != null ==> dest.prev != node && dest.prev != dest)
      modifies this`first, this`last, this`length, node`next, Only(dest)`prev
      modifies (if dest == null then {} else Only(dest.prev))`next
      ensures node.next == dest && length == old(length) + 1
      ensures dest != null ==> dest.prev == node && (old(dest.prev) != null ==> old(dest.prev).next == node)
      ensures first == (if old(first) == dest || old(first) == null then node else old(first))
      ensures last == (if old(last) == null then node else old(last))
    {
      if dest != null {
        if dest.prev != null {
          dest.prev.next := node;
        }
        dest.prev := node;
        if dest == first {
          first := node;
        }
      }
      node.next := dest;
      if first == null {
        first := node;
      }
      if last == null {
        last := node;
      }
      length := length + 1;
    }

    /** `_prepend` before position `k`.  The back link of `node` is not written, so the list stays
        sound exactly when it holds the right value beforehand. */
    method Prepend(dest: ListNode?<T>, node: ListNode<T>, ghost k: nat)
      requires Valid() && node !in nodes && k <= |nodes|
      requires if dest == null then nodes == [] else k < |nodes| && nodes[k] == dest
      modifies this, nodes`prev, nodes`next, node`next
      ensures nodes == InsertAt(old(nodes), k, node)
      ensures Valid() <==> node.prev == PrevAt(old(nodes), k)
    {
      hide InsertAt, PrevAt, NextAt;
      ghost var s, s' := nodes, InsertAt(nodes, k, node);
      AroundGap(s, k);
      Ends(s);
      InsertShape(s, k, node, k);
      Ends(s');
      InsertDistinct(s, k, node);
      PrependLinks(dest, node);
      forall i | 0 <= i < |s'|
        ensures i != k ==> s'[i].prev == PrevAt(s', i)
        ensures s'[i].next == NextAt(s', i)
      {
        InsertShape(s, k, node, i);
      }
      InsertShape(s, k, node, 0);
      InsertShape(s, k, node, |s|);
      nodes := s';
    }

    /** `push_front` of a node that is on no list. */
    method PushFront(node: ListNode<T>)
      requires Valid() && node !in nodes
      modifies this, nodes`prev, nodes`next, node`next
      ensures nodes == [node] + old(nodes) && (Valid() <==> node.prev == null)
    {
      hide Linked, Distinct;
      Prepend(first, node, 0);
      assert InsertAt(old(nodes), 0, node) == [node] + old(nodes);
    }

    /** The assignments of `_remove`. */
    method RemoveLinks(dest: ListNode<T>)
      requires length > 0 && dest.prev != dest && dest.next != dest
      modifies this`first, this`last, this`length, Only(dest.prev)`next, Only(dest.next)`prev
      ensures length == old(length) - 1
      ensures dest.prev != null ==> dest.prev.next == dest.next
      ensures dest.next != null ==> dest.next.prev == dest.prev
      ensures first == (if old(first) == dest then dest.next else old(first))
      ensures last == (if old(last) == dest then dest.prev else old(last))
    {
      if dest == first {
        first := dest.next;
      }
      if dest == last {
        last := dest.prev;
      }
      if dest.prev != null {
        dest.prev.next := dest.next;
      }
      if dest.next != null {
        dest.next.prev := dest.prev;
      }
      length := length - 1;
    }

    /** `_remove`, and `detach`: the links of the removed node itself stay as they are. */
    method Detach(dest: ListNode<T>, ghost k: nat)
      requires Valid() && k < |nodes| && nodes[k] == dest
      modifies this, nodes`prev, nodes`next
      ensures Valid() && nodes == RemoveAt(old(nodes), k)
      ensures dest.prev == PrevAt(old(nodes), k)
    {
      hide RemoveAt, PrevAt, NextAt;
      ghost var s, s' := nodes, RemoveAt(nodes, k);
      AroundGap(s, k);
      AroundGap(s, k + 1);
      Ends(s);
      assert s[k].prev == PrevAt(s, k) && s[k].next == NextAt(s, k);
      RemoveDistinct(s, k);
      RemoveLinks(dest);
      forall i | 0 <= i < |s| - 1
        ensures |s'| == |s| - 1 && s'[i].prev == PrevAt(s', i) && s'[i].next == NextAt(s', i)
      {
        RemoveShape(s, k, i);
      }
      RemoveEnds(s, k);
      nodes := s';
    }
  }

  /** The step that rehashing repeats: the first node moves to the front of another list.  Being
      first, it carries a null back link, which is what pushing it needs. */
  method MoveFirst<T>(from: List<T>, to: List<T>)
    requires from.Valid() && to.Valid() && from != to && from.nodes != []
    requires forall n <- from.nodes :: n !in to.nodes
    modifies from, to, from.nodes`prev, from.nodes`next, to.nodes`prev, to.nodes`next
    ensures from.Valid() && to.Valid()
    ensures to.nodes == [old(from.nodes[0])] + old(to.nodes) && from.nodes == old(from.nodes[1..])
  {
    hide Distinct, PrevAt, NextAt, RemoveAt;
    var j := from.first;
    ghost var a, b := from.nodes, to.nodes;
    Ends(a);
    RemoveFirst(a);
    from.Detach(j, 0);
    assert forall n <- b :: n !in a;
    assert forall n <- b :: n.prev == old(n.prev) && n.next == old(n.next);
    label moved:
    to.PushFront(j);
    assert forall n <- a[1..] :: n in a && n != j;
    assert forall n <- a[1..] :: n.prev == old@moved(n.prev) && n.next == old@moved(n.next);
  }

  /** Putting a fresh node before the second of two nodes breaks the list: its back link is null. */
  method PrependBreaks<T>(x: T, y: T, z: T) returns (list: List<T>)
    ensures !list.Valid() && |list.nodes| == 3
  {
    hide Linked, Distinct, InsertAt;
    list := new List();
    var second := new ListNode(y);
    list.PushFront(second);
    var first := new ListNode(x);
    list.PushFront(first);
    var node := new ListNode(z);
    ghost var two := list.nodes;
    assert two == [first, second];
    list.Prepend(second, node, 1);
    InsertShape(two, 1, node, 1);
  }
}
