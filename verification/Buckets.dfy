/** The elements of the chained hash set, bucket by bucket: which bucket an element belongs to, and what
    changing one bucket does to the elements of all.  A bucket is the sequence of its elements, front
    first; elements are compared by key, and the payload is what overwriting changes. */
module Buckets {
  import opened Keys

  datatype Elem = Elem(key: int, payload: int, hash: nat)

  type Bucket = seq<Elem>

  ghost function Elems(bs: seq<Bucket>): multiset<Elem> {
    if bs == [] then multiset{} else Elems(bs[..|bs| - 1]) + multiset(bs[|bs| - 1])
  }

  /** Every element is in the bucket of its hash code. */
  ghost predicate Placed(bs: seq<Bucket>) {
    forall b, i :: 0 <= b < |bs| && 0 <= i < |bs[b]| ==> bs[b][i].hash % |bs| == b
  }

  /** No key occurs twice. */
  ghost predicate UniqueKeys(m: multiset<Elem>) {
    forall e <- m :: m[e] == 1 && forall e' <- m :: e.key == e'.key ==> e == e'
  }

  lemma {:induction false} ElemsIn(bs: seq<Bucket>, b: nat, e: Elem)
    requires b < |bs| && e in bs[b]
    ensures e in Elems(bs)
    decreases |bs|
  {
    if b < |bs| - 1 {
      ElemsIn(bs[..|bs| - 1], b, e);
    }
  }

  lemma {:induction false} ElemsWhere(bs: seq<Bucket>, e: Elem) returns (b: nat)
    requires e in Elems(bs)
    ensures b < |bs| && e in bs[b]
    decreases |bs|
  {
    b := |bs| - 1;
    if e !in bs[b] {
      b := ElemsWhere(bs[..|bs| - 1], e);
    }
  }

  lemma {:induction false} ElemsUpdate(bs: seq<Bucket>, b: nat, s: Bucket)
    requires b < |bs|
    ensures Elems(bs[b := s]) + multiset(bs[b]) == Elems(bs) + multiset(s)
    decreases |bs|
  {
    var n, bs' := |bs| - 1, bs[b := s];
    assert Elems(bs') == Elems(bs'[..n]) + multiset(bs'[n]);
    if b < n {
      ElemsUpdate(bs[..n], b, s);
      assert bs'[..n] == bs[..n][b := s];
      AddBoth(Elems(bs'[..n]), multiset(bs[b]), Elems(bs[..n]), multiset(s), multiset(bs[n]));
    } else {
      assert bs'[..n] == bs[..n];
    }
  }

  lemma AddBoth(a: multiset<Elem>, b: multiset<Elem>, c: multiset<Elem>, d: multiset<Elem>, l: multiset<Elem>)
    requires a + b == c + d
    ensures a + l + b == c + l + d
  {
    forall e: Elem
      ensures (a + l + b)[e] == (c + l + d)[e]
    {
      assert (a + b)[e] == (c + d)[e];
    }
  }

  lemma Cancel(a: multiset<Elem>, b: multiset<Elem>, c: multiset<Elem>, d: multiset<Elem>)
    requires a + b == c + (d + b)
    ensures a == c + d
  {
    forall e: Elem
      ensures a[e] == (c + d)[e]
    {
      assert (a + b)[e] == (c + (d + b))[e];
    }
  }

  lemma PushPlaced(r: seq<Bucket>, b: nat, e: Elem)
    requires b < |r| && Placed(r) && e.hash % |r| == b
    ensures Placed(r[b := [e] + r[b]]) && Elems(r[b := [e] + r[b]]) == Elems(r) + multiset{e}
  {
    ElemsUpdate(r, b, [e] + r[b]);
    assert multiset([e] + r[b]) == multiset{e} + multiset(r[b]);
    Cancel(Elems(r[b := [e] + r[b]]), multiset(r[b]), Elems(r), multiset{e});
  }

  lemma SplitFirst(s: Bucket)
    requires s != []
    ensures multiset(s) == multiset{s[0]} + multiset(s[1..])
  {
    assert s == [s[0]] + s[1..];
  }

  // ------------------------------------------------------------------ single buckets

  lemma PlacedUpdate(bs: seq<Bucket>, b: nat, s: Bucket)
    requires b < |bs| && Placed(bs) && forall e <- s :: e.hash % |bs| == b
    ensures Placed(bs[b := s])
  {
  }

  /** A bucket without the element at position j. */
  function Without(s: Bucket, j: nat): Bucket
    requires j < |s|
  {
    s[..j] + s[j + 1..]
  }

  lemma SplitAt(s: Bucket, j: nat)
    requires j < |s|
    ensures multiset(s) == multiset(Without(s, j)) + multiset{s[j]}
  {
    assert s == s[..j] + [s[j]] + s[j + 1..];
  }

  lemma Exchange(m': multiset<Elem>, m: multiset<Elem>, rest: multiset<Elem>, x: Elem, y: multiset<Elem>)
    requires m' + (rest + multiset{x}) == m + (rest + y) && x in m
    ensures m' == m - multiset{x} + y
  {
    forall e: Elem
      ensures m'[e] == (m - multiset{x} + y)[e]
    {
      assert (m' + (rest + multiset{x}))[e] == (m + (rest + y))[e];
    }
  }

  lemma ReplaceIn(bs: seq<Bucket>, b: nat, j: nat, e: Elem)
    requires b < |bs| && j < |bs[b]| && Placed(bs) && e.hash == bs[b][j].hash
    ensures var bs' := bs[b := bs[b][j := e]];
      && Placed(bs') && bs[b][j] in Elems(bs)
      && Elems(bs') == Elems(bs) - multiset{bs[b][j]} + multiset{e}
  {
    hide Elems;
    var s := bs[b];
    var s' := s[j := e];
    PlacedUpdate(bs, b, s');
    ElemsUpdate(bs, b, s');
    ElemsIn(bs, b, s[j]);
    SplitAt(s, j);
    SplitAt(s', j);
    assert Without(s', j) == Without(s, j);
    Exchange(Elems(bs[b := s']), Elems(bs), multiset(Without(s, j)), s[j], multiset{e});
  }

  lemma DropIn(bs: seq<Bucket>, b: nat, j: nat)
    requires b < |bs| && j < |bs[b]| && Placed(bs)
    ensures var bs' := bs[b := Without(bs[b], j)];
      && Placed(bs') && bs[b][j] in Elems(bs)
      && Elems(bs') == Elems(bs) - multiset{bs[b][j]}
  {
    hide Elems;
    var s := bs[b];
    PlacedUpdate(bs, b, Without(s, j));
    ElemsUpdate(bs, b, Without(s, j));
    ElemsIn(bs, b, s[j]);
    SplitAt(s, j);
    Exchange(Elems(bs[b := Without(s, j)]), Elems(bs), multiset(Without(s, j)), s[j], multiset{});
  }

  // ------------------------------------------------------------------ views

  /** What the set promises of its elements: distinct keys, and the hash code of the key cached. */
  ghost predicate Hashed(m: multiset<Elem>, hasher: int -> nat) {
    UniqueKeys(m) && forall e <- m :: e.hash == hasher(e.key)
  }

  /** `was` is the element of m with this key, or None when there is none. */
  ghost predicate IsKeyed(m: multiset<Elem>, key: int, was: Option<Elem>) {
    match was
    case Some(x) => x in m && x.key == key
    case None => forall e <- m :: e.key != key
  }

  /** m with e put in the place of `was`, or added. */
  ghost function Put(m: multiset<Elem>, was: Option<Elem>, e: Elem): multiset<Elem> {
    if was.Some? then m - multiset{was.value} + multiset{e} else m + multiset{e}
  }

  /** One element of m is missing. */
  ghost predicate OneMissing(m': multiset<Elem>, m: multiset<Elem>) {
    exists x :: x in m && m' == m - multiset{x}
  }

  lemma OneLess(m: multiset<Elem>, x: Elem)
    requires x in m
    ensures |m - multiset{x}| == |m| - 1
  {
    assert m == m - multiset{x} + multiset{x};
  }

  lemma DropHashed(m: multiset<Elem>, x: Elem, hasher: int -> nat)
    requires x in m && Hashed(m, hasher)
    ensures Hashed(m - multiset{x}, hasher) && IsKeyed(m - multiset{x}, x.key, None)
  {
    var m' := m - multiset{x};
    forall e | e in m'
      ensures m'[e] == 1 && e in m && e.key != x.key
    {
      assert m[x] == 1 && m[e] == 1;
    }
  }

  lemma AddHashed(m: multiset<Elem>, e: Elem, hasher: int -> nat)
    requires Hashed(m, hasher) && IsKeyed(m, e.key, None) && e.hash == hasher(e.key)
    ensures Hashed(m + multiset{e}, hasher)
  {
  }

  /** Putting keeps the keys distinct; it adds one element exactly when the key was absent. */
  lemma PutHashed(m: multiset<Elem>, was: Option<Elem>, e: Elem, hasher: int -> nat)
    requires Hashed(m, hasher) && IsKeyed(m, e.key, was) && e.hash == hasher(e.key)
    ensures Hashed(Put(m, was, e), hasher) && e in Put(m, was, e)
    ensures |Put(m, was, e)| == if was.Some? then |m| else |m| + 1
  {
    match was {
      case Some(x) =>
        DropHashed(m, x, hasher);
        OneLess(m, x);
        AddHashed(m - multiset{x}, e, hasher);
      case None =>
        AddHashed(m, e, hasher);
    }
  }

  /** Dropping one element x after putting e gives the old view back exactly when nothing was
      overwritten and x is e. */
  lemma Popped(m: multiset<Elem>, was: Option<Elem>, e: Elem, x: Elem, hasher: int -> nat)
    requires Hashed(m, hasher) && IsKeyed(m, e.key, was) && e.hash == hasher(e.key)
    requires x in Put(m, was, e) && (was.None? ==> x == e)
    ensures var m' := Put(m, was, e) - multiset{x};
      && Hashed(m', hasher) && (m' == m <==> was.None?) && OneMissing(m', Put(m, was, e))
      && |m'| == if was.Some? then |m| - 1 else |m|
  {
    PutHashed(m, was, e, hasher);
    DropHashed(Put(m, was, e), x, hasher);
    OneLess(Put(m, was, e), x);
    if was.None? {
      assert m + multiset{e} - multiset{e} == m;
    }
  }
}
