/** Ordered lookups on a set of keys, with the contracts proved for the red-black tree: the
    greatest key not above a bound, the least key, the next key. */
module Keys {

  datatype Option<T> = None | Some(value: T)

  ghost predicate IsFloor(keys: set<nat>, k: nat, m: nat) {
    m in keys && m <= k && forall x <- keys :: x <= k ==> x <= m
  }

  ghost predicate IsNext(keys: set<nat>, k: int, m: nat) {
    m in keys && k < m && forall x <- keys :: k < x ==> m <= x
  }

  lemma {:induction false} FloorExists(keys: set<nat>, k: nat, some: nat)
    requires some in keys && some <= k
    ensures exists m :: IsFloor(keys, k, m)
    decreases k - some
  {
    if x :| x in keys && some < x <= k {
      FloorExists(keys, k, x);
    } else {
      assert IsFloor(keys, k, some);
    }
  }

  lemma {:induction false} NextExists(keys: set<nat>, k: int, some: nat)
    requires some in keys && k < some
    ensures exists m :: IsNext(keys, k, m)
    decreases some - k
  {
    if x :| x in keys && k < x < some {
      NextExists(keys, k, x);
    } else {
      assert IsNext(keys, k, some);
    }
  }

  /** `find_max_lteq`. */
  method FloorKey(keys: set<nat>, k: nat) returns (r: Option<nat>)
    ensures r.None? <==> forall x <- keys :: k < x
    ensures r.Some? ==> IsFloor(keys, k, r.value)
  {
    if m :| m in keys && m <= k && forall x <- keys :: x <= k ==> x <= m {
      return Some(m);
    }
    forall x | x in keys
      ensures k < x
    {
      if x <= k {
        FloorExists(keys, k, x);
      }
    }
    return None;
  }

  /** `get_next`, and `begin` when `k` is negative. */
  method NextKey(keys: set<nat>, k: int) returns (r: Option<nat>)
    ensures r.None? <==> forall x <- keys :: x <= k
    ensures r.Some? ==> IsNext(keys, k, r.value)
  {
    if m :| m in keys && k < m && forall x <- keys :: k < x ==> m <= x {
      return Some(m);
    }
    forall x | x in keys
      ensures x <= k
    {
      if k < x {
        NextExists(keys, k, x);
      }
    }
    return None;
  }
}
