/** Round-robin scheduling.  The process set and each process's thread set are given as their keys in
    ascending order, which is the order in which the trees' `begin` and `get_next` list them. */
module Sched {
  import opened Keys

  datatype Proc = Proc(pid: nat, tids: seq<nat>)

  /** A thread knows its parent process. */
  datatype Thread = Thread(parent: Proc, tid: nat)

  ghost predicate Ascending(s: seq<nat>) {
    forall i, j :: 0 <= i < j < |s| ==> s[i] < s[j]
  }

  /** Distinct processes in order, each with at least one thread. */
  ghost predicate Ordered(ps: seq<Proc>) {
    && (forall i, j :: 0 <= i < j < |ps| ==> ps[i].pid < ps[j].pid)
    && (forall p <- ps :: p.tids != [] && Ascending(p.tids))
  }

  /** All threads in the order of process and thread identifiers. */
  ghost function Threads(ps: seq<Proc>): seq<Thread> {
    if ps == [] then [] else ThreadsOf(ps[0]) + Threads(ps[1..])
  }

  ghost function ThreadsOf(p: Proc): seq<Thread> {
    seq(|p.tids|, i requires 0 <= i < |p.tids| => Thread(p, p.tids[i]))
  }

  // ------------------------------------------------------------------ set accessors

  /** `ps_proc_thread_set_next`: the first thread identifier above another. */
  function TidAfter(tids: seq<nat>, tid: nat): Option<nat> {
    if tids == [] then None else if tid < tids[0] then Some(tids[0]) else TidAfter(tids[1..], tid)
  }

  /** `ps_global_proc_set_next`. */
  function ProcAfter(ps: seq<Proc>, pid: nat): Option<Proc> {
    if ps == [] then None else if pid < ps[0].pid then Some(ps[0]) else ProcAfter(ps[1..], pid)
  }

  /** `ps_global_proc_set_begin` followed by `ps_proc_thread_set_begin`. */
  function Begin(p: Proc): Thread
    requires p.tids != []
  {
    Thread(p, p.tids[0])
  }

  /** `ps_simploop_sched_next_thread`. */
  function NextThread(ps: seq<Proc>, curProc: Proc, cur: Option<Thread>): (r: Thread)
    requires ps != [] && forall p <- ps :: p.tids != []
  {
    match cur
    case None => Begin(ps[0])
    case Some(th) =>
      match TidAfter(curProc.tids, th.tid)
      case Some(next) => Thread(curProc, next)
      case None =>
        match ProcAfter(ps, curProc.pid)
        case Some(next) => ProcAfterIn(ps, curProc.pid); Begin(next)
        case None => Begin(ps[0])
  }

  lemma {:induction false} ProcAfterIn(ps: seq<Proc>, pid: nat)
    ensures var r := ProcAfter(ps, pid); r.Some? ==> r.value in ps
    decreases |ps|
  {
    if ps != [] && ps[0].pid <= pid {
      ProcAfterIn(ps[1..], pid);
    }
  }

  // ------------------------------------------------------------------ the cyclic successor

  lemma {:induction false} TidAfterAt(tids: seq<nat>, i: nat)
    requires Ascending(tids) && i < |tids|
    ensures TidAfter(tids, tids[i]) == if i + 1 < |tids| then Some(tids[i + 1]) else None
    decreases |tids|
  {
    if i > 0 {
      TidAfterAt(tids[1..], i - 1);
    } else if |tids| > 1 {
      assert tids[1..][0] == tids[1];
    }
  }

  lemma {:induction false} ProcAfterAt(ps: seq<Proc>, i: nat)
    requires Ordered(ps) && i < |ps|
    ensures ProcAfter(ps, ps[i].pid) == if i + 1 < |ps| then Some(ps[i + 1]) else None
    decreases |ps|
  {
    if i > 0 {
      ProcAfterAt(ps[1..], i - 1);
    } else if |ps| > 1 {
      assert ps[1..][0] == ps[1];
    }
  }

  /** Where the threads of a process are in the order: the k-th process's start at the number of
      threads before them. */
  ghost function Offset(ps: seq<Proc>, k: nat): nat
    requires k <= |ps|
  {
    |Threads(ps[..k])|
  }

  lemma {:induction false} ThreadsSplit(a: seq<Proc>, b: seq<Proc>)
    ensures Threads(a + b) == Threads(a) + Threads(b)
    decreases |a|
  {
    if a == [] {
      assert a + b == b;
    } else {
      ThreadsSplit(a[1..], b);
      assert (a + b)[1..] == a[1..] + b;
    }
  }

  lemma OffsetStep(ps: seq<Proc>, k: nat)
    requires k < |ps|
    ensures Offset(ps, k + 1) == Offset(ps, k) + |ps[k].tids|
  {
    ThreadsSplit(ps[..k], [ps[k]]);
    assert ps[..k + 1] == ps[..k] + [ps[k]];
    assert Threads([ps[k]]) == ThreadsOf(ps[k]) + Threads([]);
  }

  /** The i-th thread of the k-th process. */
  lemma ThreadAt(ps: seq<Proc>, k: nat, i: nat)
    requires k < |ps| && i < |ps[k].tids|
    ensures Offset(ps, k) + i < |Threads(ps)| && Offset(ps, k + 1) == Offset(ps, k) + |ps[k].tids|
    ensures Threads(ps)[Offset(ps, k) + i] == Thread(ps[k], ps[k].tids[i])
  {
    ThreadsSplit(ps[..k], ps[k..]);
    assert ps == ps[..k] + ps[k..] && ps[k..][0] == ps[k];
    OffsetStep(ps, k);
  }

  /** Every place in the order belongs to some process. */
  lemma {:induction false} Locate(ps: seq<Proc>, n: nat, m: nat) returns (k: nat, i: nat)
    requires m <= |ps| && n < Offset(ps, m)
    ensures k < m && i < |ps[k].tids| && n == Offset(ps, k) + i
    decreases m
  {
    k := m - 1;
    OffsetStep(ps, k);
    if n < Offset(ps, k) {
      k, i := Locate(ps, n, k);
    } else {
      i := n - Offset(ps, k);
    }
  }

  /** The place after n, going round. */
  function Around(n: nat, size: nat): nat
    requires n < size
  {
    if n + 1 < size then n + 1 else 0
  }

  /** The next thread is the cyclic successor in the order of process and thread identifiers. */
  lemma NextIsSuccessor(ps: seq<Proc>, n: nat)
    requires Ordered(ps) && n < |Threads(ps)|
    ensures ps != []
    ensures var all := Threads(ps);
      NextThread(ps, all[n].parent, Some(all[n])) == all[Around(n, |all|)]
  {
    hide Threads, TidAfter, ProcAfter;
    assert ps[..|ps|] == ps;
    var k, i := Locate(ps, n, |ps|);
    ThreadAt(ps, k, i);
    TidAfterAt(ps[k].tids, i);
    ProcAfterAt(ps, k);
    if i + 1 < |ps[k].tids| {
      ThreadAt(ps, k, i + 1);
    } else if k + 1 < |ps| {
      ThreadAt(ps, k + 1, 0);
    } else {
      Starts(ps);
    }
  }

  /** The order starts with the first thread of the first process. */
  lemma Starts(ps: seq<Proc>)
    requires Ordered(ps) && ps != []
    ensures Threads(ps) != [] && Threads(ps)[0] == Begin(ps[0])
  {
  }

  /** No thread occurs twice in the order. */
  lemma ThreadsDistinct(ps: seq<Proc>, m: nat, n: nat)
    requires Ordered(ps) && m < n < |Threads(ps)|
    ensures Threads(ps)[m] != Threads(ps)[n]
  {
    hide Threads;
    assert ps[..|ps|] == ps;
    var k, i := Locate(ps, m, |ps|);
    var l, j := Locate(ps, n, |ps|);
    ThreadAt(ps, k, i);
    ThreadAt(ps, l, j);
  }

  // ------------------------------------------------------------------ the timer

  /** The scheduling state of a processor over a fixed set of processes. */
  class Cpu {
    const procs: seq<Proc>
    var curProc: Proc
    var curThread: Option<Thread>
    var scheduled: set<Thread>
    /** Where the current thread is in the order. */
    ghost var place: nat

    ghost predicate Valid()
      reads this
    {
      && Ordered(procs) && procs != []
      && match curThread
         case None => scheduled == {}
         case Some(th) =>
           && place < |Threads(procs)| && th == Threads(procs)[place]
           && scheduled == {th} && curProc == th.parent
    }

    constructor (ps: seq<Proc>)
      requires Ordered(ps) && ps != []
      ensures Valid() && procs == ps && curThread == None
    {
      procs, curProc, curThread, scheduled, place := ps, ps[0], None, {}, 0;
    }

    /** The update of the current process and thread in the timer interrupt.  The current process is
        the parent of the current thread, the only one marked as scheduled. */
    method Tick()
      requires Valid()
      modifies this
      ensures Valid() && curThread.Some?
      ensures place == if old(curThread).None? then 0 else Around(old(place), |Threads(procs)|)
    {
      hide Threads;
      var next := NextThread(procs, curProc, curThread);
      Starts(procs);
      if curThread.Some? {
        NextIsSuccessor(procs, place);
      }
      if next.parent != curProc {
        curProc := next.parent;
      }
      if curThread.Some? {
        scheduled := scheduled - {curThread.value};
        place := Around(place, |Threads(procs)|);
      } else {
        place := 0;
      }
      curThread := Some(next);
      scheduled := scheduled + {next};
    }

    /** As many ticks as there are threads: they run every thread exactly once and come back to the
        thread they started from. */
    method Round(ticks: nat) returns (trace: seq<Thread>)
      requires Valid() && curThread.Some? && ticks == |Threads(procs)|
      modifies this
      ensures Valid() && curThread == old(curThread)
      ensures |trace| == |Threads(procs)| && multiset(trace) == multiset(Threads(procs))
    {
      hide Threads;
      ghost var all, start := Threads(procs), place;
      var k := 0;
      trace := [];
      while k < ticks
        invariant 0 <= k <= ticks && Valid() && curThread.Some?
        invariant place == if start + k < ticks then start + k else start + k - ticks
        invariant trace == Rotated(all, start + 1)[..k]
      {
        Tick();
        k := k + 1;
        trace := trace + [curThread.value];
      }
      RotatedSame(all, start + 1);
      assert trace == Rotated(all, start + 1);
    }
  }

  ghost function Rotated(all: seq<Thread>, k: nat): seq<Thread>
    requires k <= |all|
  {
    all[k..] + all[..k]
  }

  lemma RotatedSame(all: seq<Thread>, k: nat)
    requires k <= |all|
    ensures multiset(Rotated(all, k)) == multiset(all)
  {
    assert all == all[..k] + all[k..];
  }
}
