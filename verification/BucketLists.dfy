/** The buckets of the hash set as the doubly linked lists that they are: searching, overwriting, pushing
    and detaching in one of many lists, and rehashing, where the nodes of the old buckets are relinked in
    place into the new ones. */
module BucketLists {
  import opened Buckets
  import opened ListModel

  /** Sound lists without a node in common, all of whose nodes are among `repr`. */
  ghost predicate Apart(ls: seq<List<Elem>>, repr: set<ListNode<Elem>>)
    reads ls, repr
  {
    && (forall i, j :: 0 <= i < j < |ls| ==> ls[i] != ls[j])
    && (forall i :: 0 <= i < |ls| ==> Within(ls[i], repr))
    && (forall i, j :: 0 <= i < |ls| && 0 <= j < |ls| && i != j ==> Foreign(ls[i], ls[j]))
  }

  ghost predicate Within(l: List<Elem>, repr: set<ListNode<Elem>>)
    reads l, repr
  {
    (forall n <- l.nodes :: n in repr) && l.Valid()
  }

  ghost predicate Foreign(l: List<Elem>, m: List<Elem>)
    reads l, m
  {
    forall n <- l.nodes :: n !in m.nodes
  }

  /** The elements of a list, front first. */
  ghost function Row(l: List<Elem>): Bucket
    reads l, l.nodes
  {
    seq(|l.nodes|, i requires 0 <= i < |l.nodes| reads l, l.nodes => l.nodes[i].data)
  }

  ghost function Rows(ls: seq<List<Elem>>, repr: set<ListNode<Elem>>): seq<Bucket>
    requires Apart(ls, repr)
    reads ls, repr
  {
    seq(|ls|, i requires 0 <= i < |ls| && Within(ls[i], repr) reads ls, repr => Row(ls[i]))
  }

  /** The front element of one bucket goes to the front of another. */
  ghost function Moved(rows: seq<Bucket>, src: nat, dst: nat): seq<Bucket>
    requires src < |rows| && dst < |rows| && rows[src] != []
  {
    rows[src := rows[src][1..]][dst := [rows[src][0]] + rows[dst]]
  }

  method MoveTo(ls: seq<List<Elem>>, src: nat, dst: nat, ghost repr: set<ListNode<Elem>>)
    requires Apart(ls, repr) && src < |ls| && dst < |ls| && src != dst && ls[src].nodes != []
    modifies ls, repr`prev, repr`next
    ensures Apart(ls, repr) && Rows(ls, repr) == Moved(old(Rows(ls, repr)), src, dst)
  {
    hide List.Valid;
    ghost var a, b := ls[src].nodes, ls[dst].nodes;
    assert Foreign(ls[src], ls[dst]) && Within(ls[src], repr) && Within(ls[dst], repr);
    Front(ls[src]);
    MoveFirst(ls[src], ls[dst]);
    forall i | 0 <= i < |ls| && i != src && i != dst
      ensures Within(ls[i], repr) && Row(ls[i]) == old(Row(ls[i]))
    {
      assert ls[i] != ls[src] && ls[i] != ls[dst];
      assert old(Within(ls[i], repr)) && old(Foreign(ls[i], ls[src])) && old(Foreign(ls[i], ls[dst]));
      assert Same(ls[i]) && forall n <- old(ls[i].nodes) :: n.prev == old(n.prev) && n.next == old(n.next);
      Untouched(ls[i]);
    }
    forall i, j | 0 <= i < |ls| && 0 <= j < |ls| && i != j
      ensures Foreign(ls[i], ls[j])
    {
      assert old(Foreign(ls[i], ls[j]));
      assert (i != src ==> old(Foreign(ls[i], ls[src]))) && (j != src ==> old(Foreign(ls[src], ls[j])));
    }
    assert Apart(ls, repr);
    assert Row(ls[src]) == old(Row(ls[src]))[1..];
    assert Row(ls[dst]) == [old(Row(ls[src]))[0]] + old(Row(ls[dst]));
  }

  twostate predicate Same(l: List<Elem>)
    reads l
  {
    l.nodes == old(l.nodes) && l.first == old(l.first) && l.last == old(l.last) && l.length == old(l.length)
  }

  twostate lemma Untouched(l: List<Elem>)
    requires old(l.Valid()) && Same(l)
    requires forall n <- old(l.nodes) :: n.prev == old(n.prev) && n.next == old(n.next) && n.data == old(n.data)
    ensures l.Valid() && Row(l) == old(Row(l))
  {
    forall i | 0 <= i < |l.nodes|
      ensures l.nodes[i].prev == PrevAt(l.nodes, i) && l.nodes[i].next == NextAt(l.nodes, i)
      ensures l.nodes[i].data == old(l.nodes[i].data)
    {
      assert l.nodes[i] in old(l.nodes);
    }
  }

  lemma Front(l: List<Elem>)
    requires l.Valid() && l.nodes != []
    ensures l.nodes[0] !in l.nodes[1..] && forall n :: n in l.nodes <==> n == l.nodes[0] || n in l.nodes[1..]
  {
    assert l.nodes == [l.nodes[0]] + l.nodes[1..];
    RemoveFirst(l.nodes);
  }

  // ------------------------------------------------------------------ one of many lists

  /** `_get_bucket_slot`: the first node with the key, or null. */
  method SlotIn(l: List<Elem>, key: int) returns (node: ListNode?<Elem>, ghost j: nat)
    requires l.Valid()
    ensures j <= |l.nodes| && node == (if j < |l.nodes| then l.nodes[j] else null)
    ensures forall i :: 0 <= i < j ==> Row(l)[i].key != key
    ensures j < |l.nodes| ==> Row(l)[j].key == key
  {
    node, j := l.first, 0;
    while node != null && node.data.key != key
      invariant j <= |l.nodes| && node == (if j < |l.nodes| then l.nodes[j] else null)
      invariant forall i :: 0 <= i < j ==> Row(l)[i].key != key
      decreases |l.nodes| - j
    {
      node := node.next;
      j := j + 1;
    }
  }

  /** A list is sound by its links, whatever the data. */
  twostate lemma SoundByLinks(l: List<Elem>)
    requires old(l.Valid()) && Same(l)
    requires forall n <- old(l.nodes) :: n.prev == old(n.prev) && n.next == old(n.next)
    ensures l.Valid()
  {
    forall i | 0 <= i < |l.nodes|
      ensures l.nodes[i].prev == PrevAt(l.nodes, i) && l.nodes[i].next == NextAt(l.nodes, i)
    {
      assert l.nodes[i] in old(l.nodes);
    }
  }

  lemma NodesDiffer(l: List<Elem>)
    requires l.Valid()
    ensures forall i, j :: 0 <= i < j < |l.nodes| ==> l.nodes[i] != l.nodes[j]
  {
  }

  /** Assigning the data of one node. */
  method Overwrite(ls: seq<List<Elem>>, b: nat, ghost j: nat, node: ListNode<Elem>, e: Elem,
                   ghost repr: set<ListNode<Elem>>)
    requires Apart(ls, repr) && b < |ls| && j < |ls[b].nodes| && ls[b].nodes[j] == node
    modifies node`data
    ensures Apart(ls, repr) && var was := old(Rows(ls, repr)); Rows(ls, repr) == was[b := was[b][j := e]]
  {
    hide List.Valid;
    assert Within(ls[b], repr);
    node.data := e;
    SoundByLinks(ls[b]);
    forall i | 0 <= i < |ls| && i != b
      ensures Within(ls[i], repr) && Row(ls[i]) == old(Row(ls[i]))
    {
      assert old(Within(ls[i], repr)) && old(Foreign(ls[i], ls[b]));
      Untouched(ls[i]);
    }
    forall i, j | 0 <= i < |ls| && 0 <= j < |ls| && i != j
      ensures Foreign(ls[i], ls[j])
    {
      assert old(Within(ls[i], repr)) && old(Within(ls[j], repr)) && old(Foreign(ls[i], ls[j]));
    }
    assert Apart(ls, repr);
    NodesDiffer(ls[b]);
    assert Row(ls[b]) == old(Row(ls[b]))[j := e];
  }

  /** `push_front` of a new node. */
  method PushNew(ls: seq<List<Elem>>, b: nat, e: Elem, ghost repr: set<ListNode<Elem>>) returns (node: ListNode<Elem>)
    requires Apart(ls, repr) && b < |ls|
    modifies ls[b], repr`prev, repr`next
    ensures fresh(node) && Apart(ls, repr + {node})
    ensures var was := old(Rows(ls, repr)); Rows(ls, repr + {node}) == was[b := [e] + was[b]]
  {
    hide List.Valid;
    assert Within(ls[b], repr);
    node := new ListNode(e);
    ls[b].PushFront(node);
    forall i | 0 <= i < |ls| && i != b
      ensures Within(ls[i], repr + {node}) && Row(ls[i]) == old(Row(ls[i]))
    {
      assert old(Within(ls[i], repr)) && old(Foreign(ls[i], ls[b]));
      Untouched(ls[i]);
    }
    forall i, j | 0 <= i < |ls| && 0 <= j < |ls| && i != j
      ensures Foreign(ls[i], ls[j])
    {
      assert old(Within(ls[i], repr)) && old(Within(ls[j], repr)) && old(Foreign(ls[i], ls[j]));
    }
    assert Apart(ls, repr + {node});
    assert Row(ls[b]) == [e] + old(Row(ls[b]));
  }

  /** `detach` of one node. */
  method DetachAt(ls: seq<List<Elem>>, b: nat, ghost j: nat, node: ListNode<Elem>, ghost repr: set<ListNode<Elem>>)
    requires Apart(ls, repr) && b < |ls| && j < |ls[b].nodes| && ls[b].nodes[j] == node
    modifies ls[b], repr`prev, repr`next
    ensures Apart(ls, repr) && var was := old(Rows(ls, repr)); Rows(ls, repr) == was[b := Without(was[b], j)]
  {
    hide List.Valid;
    assert Within(ls[b], repr);
    ls[b].Detach(node, j);
    forall i | 0 <= i < |ls| && i != b
      ensures Within(ls[i], repr) && Row(ls[i]) == old(Row(ls[i]))
    {
      assert old(Within(ls[i], repr)) && old(Foreign(ls[i], ls[b]));
      Untouched(ls[i]);
    }
    forall i, j | 0 <= i < |ls| && 0 <= j < |ls| && i != j
      ensures Foreign(ls[i], ls[j])
    {
      assert old(Within(ls[i], repr)) && old(Within(ls[j], repr)) && old(Foreign(ls[i], ls[j]));
    }
    assert Apart(ls, repr);
    assert Row(ls[b]) == Without(old(Row(ls[b])), j);
  }

  // ------------------------------------------------------------------ rehashing

  lemma Regroup(a: multiset<Elem>, b: multiset<Elem>, c: multiset<Elem>)
    ensures a + b + c == a + (b + c)
  {
  }

  lemma {:induction false} ElemsSplit(a: seq<Bucket>, b: seq<Bucket>)
    ensures Elems(a + b) == Elems(a) + Elems(b)
    decreases |b|
  {
    if b == [] {
      assert a + b == a;
    } else {
      var m := |b| - 1;
      ElemsSplit(a, b[..m]);
      assert (a + b)[..|a + b| - 1] == a + b[..m];
      assert Elems(a + b) == Elems(a + b[..m]) + multiset(b[m]);
      Regroup(Elems(a), Elems(b[..m]), multiset(b[m]));
    }
  }

  lemma {:induction false} ElemsNone(bs: seq<Bucket>)
    requires forall k :: 0 <= k < |bs| ==> bs[k] == []
    ensures Elems(bs) == multiset{}
    decreases |bs|
  {
    if bs != [] {
      ElemsNone(bs[..|bs| - 1]);
    }
  }

  /** Moving an element keeps the elements; moving it to the bucket of its hash code, among the buckets
      from n on, keeps those right. */
  lemma MovedKeeps(rows: seq<Bucket>, src: nat, index: nat, n: nat)
    requires src < n && n + index < |rows| && rows[src] != [] && rows[src][0].hash % (|rows| - n) == index
    requires Placed(rows[n..])
    ensures var rows' := Moved(rows, src, n + index);
      Placed(rows'[n..]) && Elems(rows') == Elems(rows)
  {
    hide Elems, Placed;
    var e, mid := rows[src][0], rows[src := rows[src][1..]];
    PushPlaced(rows[n..], index, e);
    assert Moved(rows, src, n + index)[n..] == rows[n..][index := [e] + rows[n..][index]];
    ElemsUpdate(rows, src, rows[src][1..]);
    ElemsUpdate(mid, n + index, [e] + rows[n + index]);
    SplitFirst(rows[src]);
    assert multiset([e] + rows[n + index]) == multiset{e} + multiset(rows[n + index]);
    var rest, there := multiset(rows[src][1..]), multiset(rows[n + index]);
    Around(Elems(rows), Elems(mid), Elems(Moved(rows, src, n + index)), multiset{e}, rest, there);
  }

  lemma Around(m: multiset<Elem>, m': multiset<Elem>, m'': multiset<Elem>,
               e: multiset<Elem>, a: multiset<Elem>, b: multiset<Elem>)
    requires m' + (e + a) == m + a && m'' + b == m' + (e + b)
    ensures m'' == m
  {
    forall x: Elem
      ensures m''[x] == m[x]
    {
      assert (m' + (e + a))[x] == (m + a)[x] && (m'' + b)[x] == (m' + (e + b))[x];
    }
  }

  lemma FirstOf(ls: seq<List<Elem>>, i: nat, repr: set<ListNode<Elem>>)
    requires Apart(ls, repr) && i < |ls|
    ensures var row := Rows(ls, repr)[i];
      && (ls[i].first == null <==> row == []) && |row| == |ls[i].nodes|
      && (row != [] ==> ls[i].nodes[0] == ls[i].first && ls[i].first.data == row[0])
  {
    assert Within(ls[i], repr);
  }

  /** How far the rehash has come: the old buckets before place i are empty, the new ones right, and no element
      is lost. */
  ghost predicate Rehashing(was: seq<Bucket>, rows: seq<Bucket>, n: nat, i: nat) {
    && |rows| == |was| && i <= n < |rows| && (forall k :: 0 <= k < i ==> rows[k] == [])
    && Placed(rows[n..]) && Elems(rows) == Elems(was)
  }

  lemma RehashMove(was: seq<Bucket>, rows: seq<Bucket>, n: nat, i: nat, index: nat)
    requires Rehashing(was, rows, n, i) && i < n && rows[i] != [] && index == rows[i][0].hash % (|rows| - n)
    ensures Rehashing(was, Moved(rows, i, n + index), n, i)
    ensures |Moved(rows, i, n + index)[i]| < |rows[i]|
  {
    hide Elems, Placed;
    MovedKeeps(rows, i, index, n);
  }

  /** The inner loop of `_resize_buckets`: one old bucket is emptied. */
  method RelinkBucket(ls: seq<List<Elem>>, n: nat, i: nat, ghost repr: set<ListNode<Elem>>, ghost was: seq<Bucket>)
    requires Apart(ls, repr) && i < n && Rehashing(was, Rows(ls, repr), n, i)
    modifies ls, repr`prev, repr`next
    ensures Apart(ls, repr) && Rehashing(was, Rows(ls, repr), n, i + 1)
  {
    hide Elems, Placed, Apart, Row, Moved;
    FirstOf(ls, i, repr);
    while ls[i].first != null
      invariant Apart(ls, repr) && Rehashing(was, Rows(ls, repr), n, i)
      invariant ls[i].first == null <==> Rows(ls, repr)[i] == []
      decreases |Rows(ls, repr)[i]|
    {
      FirstOf(ls, i, repr);
      var index := ls[i].first.data.hash % (|ls| - n);
      RehashMove(was, Rows(ls, repr), n, i, index);
      MoveTo(ls, i, n + index, repr);
      FirstOf(ls, i, repr);
    }
  }

  /** The loops of `_resize_buckets`: afterwards the old buckets are empty and the new ones hold the same
      elements, each in the bucket of its hash code; the lists are sound and made of the same nodes. */
  method Relink(ls: seq<List<Elem>>, n: nat, ghost repr: set<ListNode<Elem>>)
    requires Apart(ls, repr) && n < |ls| && forall k :: n <= k < |ls| ==> Rows(ls, repr)[k] == []
    modifies ls, repr`prev, repr`next
    ensures Apart(ls, repr) && forall k :: 0 <= k < n ==> Rows(ls, repr)[k] == []
    ensures Placed(Rows(ls, repr)[n..]) && Elems(Rows(ls, repr)[n..]) == old(Elems(Rows(ls, repr)[..n]))
  {
    hide Elems, Placed, Apart, Row;
    ghost var was := Rows(ls, repr);
    NothingNew(was, n);
    var i := 0;
    while i < n
      invariant 0 <= i <= n && Apart(ls, repr) && Rehashing(was, Rows(ls, repr), n, i)
    {
      RelinkBucket(ls, n, i, repr, was);
      i := i + 1;
    }
    NothingOld(Rows(ls, repr), n);
  }

  lemma NothingNew(rows: seq<Bucket>, n: nat)
    requires n <= |rows| && forall k :: n <= k < |rows| ==> rows[k] == []
    ensures Elems(rows) == Elems(rows[..n]) && Placed(rows[n..])
  {
    assert rows == rows[..n] + rows[n..];
    ElemsSplit(rows[..n], rows[n..]);
    ElemsNone(rows[n..]);
  }

  lemma NothingOld(rows: seq<Bucket>, n: nat)
    requires n <= |rows| && forall k :: 0 <= k < n ==> rows[k] == []
    ensures Elems(rows) == Elems(rows[n..])
  {
    assert rows == rows[..n] + rows[n..];
    ElemsSplit(rows[..n], rows[n..]);
    ElemsNone(rows[..n]);
  }

  lemma RowsPart(ls: seq<List<Elem>>, n: nat, repr: set<ListNode<Elem>>)
    requires Apart(ls, repr) && n <= |ls|
    ensures Apart(ls[..n], repr) && Rows(ls[..n], repr) == Rows(ls, repr)[..n]
    ensures Apart(ls[n..], repr) && Rows(ls[n..], repr) == Rows(ls, repr)[n..]
  {
    hide Within, Foreign, Row;
  }

  /** New, empty buckets beside the old ones. */
  method NewBuckets(ls: seq<List<Elem>>, n: nat, ghost repr: set<ListNode<Elem>>) returns (all: seq<List<Elem>>)
    requires Apart(ls, repr)
    ensures Apart(all, repr) && |all| == |ls| + n && all[..|ls|] == ls
    ensures forall k :: |ls| <= k < |all| ==> fresh(all[k]) && Rows(all, repr)[k] == []
  {
    hide List.Valid;
    all := ls;
    var k := 0;
    while k < n
      invariant 0 <= k <= n && Apart(all, repr) && |all| == |ls| + k && all[..|ls|] == ls
      invariant forall k :: |ls| <= k < |all| ==> fresh(all[k]) && Rows(all, repr)[k] == []
    {
      var l := new List();
      all := all + [l];
      k := k + 1;
    }
  }

  /** `_resize_buckets` after its allocation: new buckets with the same elements, each in bucket hash
      mod n, made of the same nodes. */
  method Resize(was: seq<List<Elem>>, newSize: nat, ghost repr: set<ListNode<Elem>>) returns (now: seq<List<Elem>>)
    requires 0 < newSize && Apart(was, repr)
    modifies was, repr`prev, repr`next
    ensures |now| == newSize && (forall l <- now :: fresh(l)) && Apart(now, repr)
    ensures Placed(Rows(now, repr)) && Elems(Rows(now, repr)) == old(Elems(Rows(was, repr)))
  {
    hide Elems, Placed, Within, Foreign, Row;
    var all := NewBuckets(was, newSize, repr);
    RowsPart(all, |was|, repr);
    Relink(all, |was|, repr);
    RowsPart(all, |was|, repr);
    now := all[|was|..];
  }
}
