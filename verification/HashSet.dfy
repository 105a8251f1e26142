/** The chained hash set of kfxx (non-fallible), on lists of nodes. */
module HashSetModel {
  import opened BucketLists
  import opened Buckets
  import opened Keys
  import opened ListModel

  /** What the allocations of an insertion answer: the first bucket, the list node, the new
      bucket array. */
  datatype Env = Env(firstBucket: bool, node: bool, resize: bool)

  class HashSet {
    const hasher: int -> nat
    var buckets: seq<List<Elem>>
    var size: nat
    /** The nodes that the lists are made of are among these. */
    ghost var repr: set<ListNode<Elem>>

    constructor (h: int -> nat)
      ensures hasher == h && Valid() && buckets == [] && repr == {} && size == 0
    {
      hasher, buckets, size, repr := h, [], 0, {};
    }

    /** Sound lists without a node in common, every element in the bucket of its hash code. */
    ghost predicate Linked()
      reads this`buckets, this`repr, buckets, repr
    {
      Apart(buckets, repr) && Placed(Rows(buckets, repr))
    }

    ghost function View(): multiset<Elem>
      requires Linked()
      reads this`buckets, this`repr, buckets, repr
    {
      Elems(Rows(buckets, repr))
    }

    /** The elements of one bucket. */
    ghost function RowAt(index: nat): Bucket
      requires Linked() && index < |buckets|
      reads this`buckets, this`repr, buckets, repr
    {
      Rows(buckets, repr)[index]
    }

    ghost predicate Valid()
      reads this, buckets, repr
    {
      Linked() && Hashed(View(), hasher) && |View()| <= size && (buckets == [] ==> size == 0)
    }

    /** Lists and nodes that were not there before are new. */
    twostate predicate Grown()
      reads this
    {
      (forall l <- buckets :: l in old(buckets) || fresh(l)) && fresh(repr - old(repr))
    }

    /** The bucket of a key holds the element with that key, if the set does. */
    lemma InItsBucket(key: int, e: Elem)
      requires Valid() && e in View() && e.key == key
      ensures buckets != [] && e in Rows(buckets, repr)[hasher(key) % |buckets|]
    {
      var rows := Rows(buckets, repr);
      var b := ElemsWhere(rows, e);
      var i :| 0 <= i < |rows[b]| && rows[b][i] == e;
      assert rows[b][i].hash % |rows| == b;
    }

    /** The search of `_get`, `_insert` and `_remove` in the bucket of a key. */
    method Locate(key: int) returns (index: nat, node: ListNode?<Elem>, ghost j: nat, ghost was: Option<Elem>)
      requires Valid() && buckets != []
      ensures index == hasher(key) % |buckets| && j <= |buckets[index].nodes|
      ensures node == (if j < |buckets[index].nodes| then buckets[index].nodes[j] else null)
      ensures IsKeyed(View(), key, was) && |RowAt(index)| == |buckets[index].nodes|
      ensures was == if node == null then None else Some(node.data)
      ensures node != null ==> node in repr && node.data == RowAt(index)[j]
    {
      hide Elems, Placed, Hashed;
      index := hasher(key) % |buckets|;
      assert Within(buckets[index], repr);
      node, j := SlotIn(buckets[index], key);
      ghost var row := Rows(buckets, repr)[index];
      if node != null {
        was := Some(node.data);
        ElemsIn(Rows(buckets, repr), index, row[j]);
      } else {
        was := None;
        forall e | e in View()
          ensures e.key != key
        {
          if e.key == key {
            InItsBucket(key, e);
          }
        }
      }
    }

    /** `_get`. */
    method Get(key: int) returns (r: Option<Elem>)
      requires Valid()
      ensures IsKeyed(View(), key, r)
    {
      if |buckets| == 0 {
        return None;
      }
      var index, node;
      ghost var j, was;
      index, node, j, was := Locate(key);
      return if node == null then None else Some(node.data);
    }

    /** `_check_capacity`. */
    function CheckCapacity(): (r: int)
      reads this
    {
      var capacity := |buckets| * 2;
      if capacity < size then 1
      else if |buckets| > size then (if |buckets| <= 1 then 0 else -1)
      else 0
    }

    /** How many buckets there should be: twice as many when there are more than two elements a bucket, half
        as many when there are more buckets than elements, but at least one. */
    static function Wanted(buckets: nat, size: nat): nat {
      if 2 * buckets < size then 2 * buckets
      else if size < buckets && 1 < buckets then buckets / 2
      else buckets
    }

    /** At most two elements a bucket, and one more: what insertions that can resize maintain. */
    ghost predicate Loaded()
      reads this
    {
      size <= 2 * |buckets| + 1
    }

    /** `_check_and_resize_buckets`. */
    method CheckAndResize(resizeOk: bool) returns (ok: bool)
      requires Linked() && buckets != []
      modifies this`buckets, buckets, repr`prev, repr`next
      ensures Linked() && View() == old(View()) && buckets != [] && Grown()
      ensures ok <==> resizeOk || Wanted(old(|buckets|), size) == old(|buckets|)
      ensures ok ==> |buckets| == Wanted(old(|buckets|), size)
      ensures !ok ==> buckets == old(buckets) && forall b :: 0 <= b < |buckets| ==> RowAt(b) == old(RowAt(b))
      ensures ok && old(Loaded()) ==> size + 1 <= 2 * |buckets| + 1
      ensures !resizeOk ==> buckets == old(buckets)
    {
      hide Elems, Placed, Apart;
      var n := |buckets|;
      var c := CheckCapacity();
      if c == 0 {
        return true;
      }
      if !resizeOk {
        return false;
      }
      buckets := Resize(buckets, if c == 1 then n * 2 else n / 2, repr);
      return true;
    }

    /** The part of `_insert` before the resize check. */
    method Store(key: int, payload: int, nodeOk: bool) returns (ok: bool, index: nat, ghost was: Option<Elem>)
      requires Valid() && buckets != []
      modifies this`repr, buckets, repr
      ensures IsKeyed(old(View()), key, was) && buckets == old(buckets) && Grown() && Linked()
      ensures ok <==> was.Some? || nodeOk
      ensures !ok ==> repr == old(repr) && View() == old(View())
      ensures ok ==> View() == Put(old(View()), was, Elem(key, payload, hasher(key)))
      ensures ok ==> index < |buckets| && RowAt(index) != []
      ensures ok && was.None? ==> RowAt(index)[0] == Elem(key, payload, hasher(key))
    {
      hide Elems, Placed, Apart, Hashed;
      var node;
      ghost var j, rows := 0, Rows(buckets, repr);
      index, node, j, was := Locate(key);
      var e := Elem(key, payload, hasher(key));
      if node != null {
        KeptHash(was.value);
        ReplaceIn(rows, index, j, e);
        Overwrite(buckets, index, j, node, e, repr);
        return true, index, was;
      }
      if !nodeOk {
        return false, index, was;
      }
      PushPlaced(rows, index, e);
      var added := PushNew(buckets, index, e, repr);
      repr := repr + {added};
      return true, index, was;
    }

    lemma KeptHash(e: Elem)
      requires Valid() && e in View()
      ensures e.hash == hasher(e.key)
    {
    }

    /** Detaching one node from its bucket. */
    method Drop(index: nat, ghost j: nat, node: ListNode<Elem>)
      requires Linked() && index < |buckets| && j < |RowAt(index)|
      requires j < |buckets[index].nodes| && buckets[index].nodes[j] == node
      modifies buckets, repr`prev, repr`next
      ensures Linked()
      ensures var e := old(RowAt(index)[j]); e in old(View()) && View() == old(View()) - multiset{e}
    {
      hide Elems, Placed, Apart;
      DropIn(Rows(buckets, repr), index, j);
      DetachAt(buckets, index, j, node, repr);
    }

    /** The end of `_insert` when the resize failed: `pop_front` on the bucket. */
    method PopFront(index: nat)
      requires Linked() && index < |buckets| && RowAt(index) != []
      modifies buckets, repr`prev, repr`next
      ensures Linked()
      ensures var front := old(RowAt(index)[0]);
        front in old(View()) && View() == old(View()) - multiset{front}
    {
      hide Elems, Placed, Apart;
      FirstOf(buckets, index, repr);
      Drop(index, 0, buckets[index].first);
    }

    /** The part of `_insert` after the element is stored in a bucket: the resize check, and `pop_front` when
        it fails and is forced. */
    method Settle(index: nat, force: bool, resizeOk: bool) returns (kept: bool)
      requires Linked() && index < |buckets| && RowAt(index) != []
      modifies this`buckets, buckets, repr`prev, repr`next
      ensures Linked() && Grown() && buckets != []
      ensures var n, wanted := old(|buckets|), Wanted(old(|buckets|), size);
        && (kept <==> !force || resizeOk || wanted == n)
        && |buckets| == if kept && resizeOk then wanted else n
      ensures var front := old(RowAt(index)[0]);
        && front in old(View())
        && View() == if kept then old(View()) else old(View()) - multiset{front}
      ensures kept && (resizeOk || Wanted(old(|buckets|), size) == old(|buckets|)) && old(Loaded()) ==>
        size + 1 <= 2 * |buckets| + 1
    {
      hide Linked, View, RowAt, Wanted;
      FrontInView(index);
      var resized := CheckAndResize(resizeOk);
      kept := resized || !force;
      if !kept {
        PopFront(index);
      }
    }

    lemma FrontInView(index: nat)
      requires Linked() && index < |buckets| && RowAt(index) != []
      ensures RowAt(index)[0] in View()
    {
      DropIn(Rows(buckets, repr), index, 0);
    }

    /** The end of `_insert`, from the view m before it. */
    method Finish(index: nat, force: bool, resizeOk: bool, ghost m: multiset<Elem>, ghost was: Option<Elem>,
                  ghost e: Elem)
      returns (ok: bool)
      requires Linked() && index < |buckets| && RowAt(index) != [] && (was.None? ==> RowAt(index)[0] == e)
      requires Hashed(m, hasher) && |m| <= size && IsKeyed(m, e.key, was) && e.hash == hasher(e.key)
      requires View() == Put(m, was, e)
      modifies this`buckets, this`size, buckets, repr`prev, repr`next
      ensures Valid() && Grown()
      ensures ok ==> size == old(size) + 1 && View() == Put(m, was, e)
      ensures !ok ==> size == old(size) && (View() == m <==> was.None?)
      ensures !ok && was.Some? ==> |View()| == |m| - 1 && OneMissing(View(), Put(m, was, e))
      ensures var n, wanted := old(|buckets|), Wanted(old(|buckets|), old(size));
        && (ok <==> !force || resizeOk || wanted == n)
        && |buckets| == if ok && resizeOk then wanted else n
      ensures ok && old(Loaded()) ==> (Loaded() <==> resizeOk || old(size) <= 2 * old(|buckets|))
    {
      hide Linked, View, RowAt, Hashed, Put, IsKeyed, Wanted, OneMissing;
      PutHashed(m, was, e, hasher);
      ghost var front := RowAt(index)[0];
      ok := Settle(index, force, resizeOk);
      if ok {
        size := size + 1;
      } else {
        Popped(m, was, e, front, hasher);
      }
    }

    /** `_insert` on a set that has buckets. */
    method InsertIn(key: int, payload: int, force: bool, env: Env) returns (ok: bool, ghost was: Option<Elem>)
      requires Valid() && buckets != []
      modifies this, buckets, repr
      ensures Valid() && Grown() && IsKeyed(old(View()), key, was)
      ensures ok ==> size == old(size) + 1 && View() == Put(old(View()), was, Elem(key, payload, hasher(key)))
      ensures !ok ==> size == old(size) && (View() == old(View()) <==> was.None?)
      ensures !ok && was.Some? ==>
        |View()| == |old(View())| - 1 && OneMissing(View(), Put(old(View()), was, Elem(key, payload, hasher(key))))
      ensures var n, wanted := old(|buckets|), Wanted(old(|buckets|), old(size));
        && (ok <==> (was.Some? || env.node) && (!force || env.resize || wanted == n))
        && |buckets| == if ok && env.resize then wanted else n
      ensures ok && old(Loaded()) ==> (Loaded() <==> env.resize || old(size) <= 2 * old(|buckets|))
    {
      hide Linked, View, RowAt, Hashed, Put, IsKeyed, Wanted, OneMissing;
      ghost var m := View();
      var e := Elem(key, payload, hasher(key));
      var index;
      ok, index, was := Store(key, payload, env.node);
      if !ok {
        return;
      }
      ok := Finish(index, force, env.resize, m, was, e);
    }

    /** `_insert`.  A successful insertion stores the element.  A failed one leaves the set as it was
        if and only if the key was absent: when it was present, giving up after a failed resize
        drops the front element of the bucket, whichever it is. */
    method Insert(key: int, payload: int, force: bool, env: Env) returns (ok: bool, ghost was: Option<Elem>)
      requires Valid()
      modifies this, buckets, repr
      ensures Valid() && Grown() && IsKeyed(old(View()), key, was)
      ensures ok ==> size == old(size) + 1 && View() == Put(old(View()), was, Elem(key, payload, hasher(key)))
      ensures !ok ==> size == old(size) && (View() == old(View()) <==> was.None?)
      ensures !ok && was.Some? ==>
        |View()| == |old(View())| - 1 && OneMissing(View(), Put(old(View()), was, Elem(key, payload, hasher(key))))
      ensures old(buckets) != [] ==>
        var n, wanted := old(|buckets|), Wanted(old(|buckets|), old(size));
        && (ok <==> (was.Some? || env.node) && (!force || env.resize || wanted == n))
        && |buckets| == if ok && env.resize then wanted else n
      ensures old(buckets) == [] ==>
        (ok <==> env.firstBucket && env.node) && |buckets| == if env.firstBucket then 1 else 0
      ensures ok && old(Loaded()) ==> (Loaded() <==> env.resize || old(size) <= 2 * old(|buckets|))
    {
      hide Linked, View, Hashed, Put;
      if |buckets| == 0 {
        NoElems();
        if !env.firstBucket {
          return false, None;
        }
        FirstBucket();
      }
      ok, was := InsertIn(key, payload, force, env);
    }

    /** The first bucket of a set. */
    method FirstBucket()
      requires Valid() && buckets == []
      modifies this
      ensures Valid() && View() == multiset{} && |buckets| == 1 && fresh(buckets[0]) && repr == old(repr) && size == 0
    {
      hide Linked, View, Hashed;
      var bucket := new List();
      buckets := [bucket];
      OneEmpty(bucket);
    }

    lemma OneEmpty(bucket: List<Elem>)
      requires bucket.Valid() && bucket.nodes == [] && buckets == [bucket]
      ensures Linked() && View() == multiset{} && Hashed(View(), hasher)
    {
      InOneBucket([]);
      assert Rows(buckets, repr) == [[]];
    }

    lemma NoElems()
      requires Linked() && buckets == []
      ensures View() == multiset{}
    {
    }

    /** `_remove`. */
    method Remove(key: int) returns (ghost was: Option<Elem>)
      requires Valid()
      modifies this`size, buckets, repr`prev, repr`next
      ensures Valid() && IsKeyed(old(View()), key, was) && IsKeyed(View(), key, None)
      ensures View() == if was.Some? then old(View()) - multiset{was.value} else old(View())
      ensures size == if was.Some? then old(size) - 1 else old(size)
    {
      hide Linked, View, RowAt, Hashed, IsKeyed;
      if |buckets| == 0 {
        NoElems();
        NoneKeyed(key);
        return None;
      }
      ghost var m := View();
      var index, node;
      ghost var j;
      index, node, j, was := Locate(key);
      if node != null {
        InView(m, key, was);
        DropHashed(m, was.value, hasher);
        OneLess(m, was.value);
        Drop(index, j, node);
        size := size - 1;
      }
    }
  }

  /** Putting an element in its own place changes nothing. */
  lemma SameAgain(m: multiset<Elem>, was: Option<Elem>, e: Elem, hasher: int -> nat)
    requires Hashed(m, hasher) && e in m && IsKeyed(m, e.key, was)
    ensures was == Some(e) && Put(m, was, e) == m
  {
  }

  lemma Missing(m': multiset<Elem>, m: multiset<Elem>)
    requires OneMissing(m', m)
    ensures m' < m
  {
    var x :| x in m && m' == m - multiset{x};
    assert m'[x] < m[x];
  }

  lemma NoneKeyed(key: int)
    ensures IsKeyed(multiset{}, key, None)
  {
  }

  lemma InView(m: multiset<Elem>, key: int, was: Option<Elem>)
    requires was.Some? && IsKeyed(m, key, was)
    ensures was.value in m && was.value.key == key
  {
  }

  lemma InOneBucket(s: Bucket)
    ensures Elems([s]) == multiset(s) && Placed([s])
  {
    assert [s][..0] == [];
  }

  /** An insertion of a new key without a resize. */
  method AddOne(s: HashSet, key: int)
    requires s.Valid() && |s.buckets| <= 1 && IsKeyed(s.View(), key, None)
    modifies s, s.buckets, s.repr
    ensures s.Valid() && |s.buckets| == 1 && s.size == old(s.size) + 1
    ensures s.View() == old(s.View()) + multiset{Elem(key, 0, s.hasher(key))}
    ensures forall b :: 0 <= b < |s.buckets| ==> s.buckets[b] in old(s.buckets) || fresh(s.buckets[b])
    ensures fresh(s.repr - old(s.repr))
  {
    hide HashSet.Linked, HashSet.View, Hashed;
    ghost var was;
    var ok;
    ok, was := s.Insert(key, 0, false, Env(true, true, false));
  }

  /** The elements with keys from 0 up to n, and no other. */
  ghost predicate Keyed(m: multiset<Elem>, n: nat) {
    |m| == n && (forall e <- m :: 0 <= e.key < n) && forall k :: 0 <= k < n ==> Elem(k, 0, 0) in m
  }

  lemma KeyedGrows(m: multiset<Elem>, n: nat)
    requires Keyed(m, n)
    ensures Keyed(m + multiset{Elem(n, 0, 0)}, n + 1)
  {
  }

  lemma KeyedBelow(m: multiset<Elem>, n: nat, key: int)
    requires Keyed(m, n) && n <= key
    ensures IsKeyed(m, key, None)
  {
  }

  /** Insertions without a resize leave all elements in one bucket. */
  method InOneBucketUpTo(n: nat) returns (s: HashSet)
    requires n > 0
    ensures fresh(s) && (forall b :: 0 <= b < |s.buckets| ==> fresh(s.buckets[b])) && fresh(s.repr)
    ensures s.Valid() && s.size == n && |s.buckets| == 1 && Keyed(s.View(), n) && s.hasher(1) == 0
  {
    hide HashSet.Linked, HashSet.View, Hashed, IsKeyed, Keyed;
    s := new HashSet(_ => 0);
    s.NoElems();
    KeyedNone();
    var k := 0;
    while k < n
      invariant 0 <= k <= n && s.hasher == (_ => 0) && (if k == 0 then s.buckets == [] else |s.buckets| == 1)
      invariant fresh(s) && (forall b :: 0 <= b < |s.buckets| ==> fresh(s.buckets[b])) && fresh(s.repr)
      invariant s.Valid() && s.size == k && Keyed(s.View(), k)
    {
      KeyedBelow(s.View(), k, k);
      KeyedGrows(s.View(), k);
      AddOne(s, k);
      k := k + 1;
    }
  }

  lemma KeyedNone()
    ensures Keyed(multiset{}, 0)
  {
  }

  /** With three elements in one bucket, overwriting one of them with a resize that must and cannot be done
      reports failure and has lost an element. */
  method LostElement() returns (s: HashSet, ghost was: multiset<Elem>, ok: bool)
    ensures fresh(s) && s.Valid() && !ok && |was| == 3 && |s.View()| == 2 && s.View() < was
  {
    hide HashSet.Linked, HashSet.View, Hashed, Put, IsKeyed, OneMissing;
    s := InOneBucketUpTo(3);
    was := s.View();
    ghost var keyed;
    ok, keyed := s.Insert(1, 0, true, Env(true, true, false));
    SameAgain(was, keyed, Elem(1, 0, 0), s.hasher);
    Missing(s.View(), was);
  }

  /** And an insertion whose resize is due, fails and is not forced succeeds and breaks the bound on the
      load, which held before. */
  method LostLoad() returns (s: HashSet, ghost loaded: bool, ok: bool)
    ensures fresh(s) && s.Valid() && loaded && ok && !s.Loaded()
  {
    hide HashSet.Linked, HashSet.View, Hashed, Put;
    s := InOneBucketUpTo(3);
    KeyedBelow(s.View(), 3, 7);
    loaded := s.Loaded();
    ghost var was;
    ok, was := s.Insert(7, 0, false, Env(true, true, false));
  }
}
