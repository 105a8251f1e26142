/** The process identifiers: the global process set, `ki_min_free_pid` and `ki_cur_max_pid`. */
module Pids {
  import opened Keys

  /** PS_PROC_ID_MAX. */
  const ID_MAX: nat := 0xFFFF_FFFF

  /** The largest member, or 0 when there is none. */
  ghost predicate IsMax(s: set<nat>, m: nat) {
    if s == {} then m == 0 else m in s && forall x <- s :: x <= m
  }

  /** p is the smallest identifier that is not taken. */
  ghost predicate IsSmallestFree(s: set<nat>, p: nat) {
    p < ID_MAX && p !in s && forall q: nat :: q < p ==> q in s
  }

  lemma MaxAfterAdd(s: set<nat>, m: nat, p: nat)
    requires IsMax(s, m)
    ensures IsMax(s + {p}, if p >= m then p else m)
  {
  }

  /** Removing a member other than the maximum leaves the maximum; removing the maximum leaves the
      greatest member below it. */
  lemma MaxAfterRemove(s: set<nat>, m: nat, p: nat, floor: Option<nat>)
    requires IsMax(s, m) && p in s
    requires floor.None? <==> forall x <- s - {p} :: m < x
    requires floor.Some? ==> IsFloor(s - {p}, m, floor.value)
    ensures IsMax(s - {p}, if p != m then m else if floor.None? then 0 else floor.value)
  {
    if p != m {
      assert m in s - {p};
    } else if floor.Some? {
      assert floor.value in s - {p};
    } else if x :| x in s - {p} {
      assert false;
    }
  }

  class ProcSet {
    var pids: set<nat>
    var minFree: nat
    var curMax: nat

    ghost predicate Valid()
      reads this
    {
      && (forall p <- pids :: p < ID_MAX)
      && minFree <= ID_MAX && (forall p: nat :: p < minFree ==> p in pids)
      && IsMax(pids, curMax)
    }

    constructor ()
      ensures Valid() && pids == {}
    {
      pids, minFree, curMax := {}, 0, 0;
    }

    /** Both loops of `ps_create_proc`: the first unused identifier of a range, recorded. */
    method TakeFirst(start: nat, end: nat) returns (pid: nat)
      requires start <= end <= ID_MAX
      modifies this
      ensures pids == old(pids)
      ensures pid == ID_MAX <==> forall p: nat :: start <= p < end ==> p in pids
      ensures pid == ID_MAX ==> minFree == old(minFree) && curMax == old(curMax)
      ensures pid != ID_MAX ==> start <= pid < end && pid !in pids && (forall p: nat :: start <= p < pid ==> p in pids)
      ensures pid != ID_MAX ==> minFree == pid + 1 && curMax == if pid >= old(curMax) then pid else old(curMax)
    {
      var i := start;
      while i != end
        invariant start <= i <= end && forall p: nat :: start <= p < i ==> p in pids
        invariant pids == old(pids) && minFree == old(minFree) && curMax == old(curMax)
        decreases end - i
      {
        if i !in pids {
          if i >= curMax {
            curMax := i;
          }
          minFree := i + 1;
          return i;
        }
        i := i + 1;
      }
      return ID_MAX;
    }

    /** `ps_create_proc`: the smallest unused identifier, or no slot exactly when all are taken. */
    method Create() returns (r: Option<nat>)
      requires Valid()
      modifies this
      ensures Valid()
      ensures r.Some? ==> IsSmallestFree(old(pids), r.value) && pids == old(pids) + {r.value}
      ensures r.None? <==> forall p: nat :: p < ID_MAX ==> p in old(pids)
      ensures r.None? ==> pids == old(pids) && minFree == old(minFree) && curMax == old(curMax)
    {
      var pid := TakeFirst(minFree, ID_MAX);
      if pid == ID_MAX {
        pid := TakeFirst(0, minFree);
      }
      if pid == ID_MAX {
        return None;
      }
      MaxAfterAdd(pids, old(curMax), pid);
      pids := pids + {pid};
      return Some(pid);
    }

    /** The bookkeeping of `ki_destroy_proc`. */
    method Destroy(pid: nat)
      requires Valid()
      modifies this
      ensures Valid() && pids == old(pids) - {pid}
      ensures pid !in old(pids) ==> minFree == old(minFree) && curMax == old(curMax)
    {
      if pid in pids {
        var all := pids;
        pids := pids - {pid};
        if pid < minFree {
          minFree := pid;
        }
        var nowMax := FloorKey(pids, curMax);
        MaxAfterRemove(all, curMax, pid, nowMax);
        if pid == curMax {
          curMax := if nowMax.None? then 0 else nowMax.value;
        }
      }
    }

    /** A destroyed identifier below all the free ones is the next to be given out. */
    method Recycle(pid: nat) returns (r: Option<nat>)
      requires Valid() && pid in pids && pid < minFree
      modifies this
      ensures Valid() && r == Some(pid) && pids == old(pids)
    {
      Destroy(pid);
      r := Create();
    }
  }
}
