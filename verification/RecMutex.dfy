/** The recursive mutex, as the atomic steps that any number of threads interleave.  Reading and
    writing the mutex's fields are separate steps, and so are the two halves of an increment. */
module RecMutex {
  import opened Keys

  type Tid = nat

  /** Where a thread is.  Of `ps_lock_rec_mutex`: TryLock is the compare-and-swap of the spinlock,
      SetOwner, Load and Store its first branch, Compare the test of `lock_thread`, Reload and Restore
      the last branch.  Of `ps_unlock_rec_mutex`: Check and CheckTimes are its two checks, UnLoad and
      UnStore the decrement, ClearOwner and Release what follows when the count is zero. */
  datatype Pc =
    | Idle | TryLock | SetOwner | Load | Store | Compare | Reload | Restore
    | Check | CheckTimes | UnLoad | UnStore | ClearOwner | Release
    | Panicked

  /** A thread: where it is, the count it has loaded, and how many locks it has taken and not undone. */
  datatype Thread = Thread(pc: Pc, reg: int, held: int)

  datatype State = State(spin: bool, owner: Option<Tid>, times: int, threads: map<Tid, Thread>)

  /** What an idle thread does next. */
  datatype Call = Lock | Unlock

  /** What a run is made of: a thread takes its next step, starting the given call if it is idle. */
  datatype Action = Action(t: Tid, call: Call)

  /** `ps_init_rec_mutex`, before any of the threads has called anything. */
  function Init(ts: set<Tid>): State {
    State(false, None, 0, map t | t in ts :: Thread(Idle, 0, 0))
  }

  function Go(s: State, t: Tid, pc: Pc): State
    requires t in s.threads
  {
    s.(threads := s.threads[t := s.threads[t].(pc := pc)])
  }

  function LoadTimes(s: State, t: Tid, pc: Pc): State
    requires t in s.threads
  {
    s.(threads := s.threads[t := s.threads[t].(pc := pc, reg := s.times)])
  }

  /** Storing the loaded count plus one completes a lock. */
  function StoreTimes(s: State, t: Tid): State
    requires t in s.threads
  {
    var th := s.threads[t];
    s.(times := th.reg + 1, threads := s.threads[t := th.(pc := Idle, held := th.held + 1)])
  }

  /** One step of thread t.  `clears` says whether unlocking the spinlock clears it. */
  function Step(s: State, a: Action, clears: bool): State {
    var t := a.t;
    if t !in s.threads then s else
    var th := s.threads[t];
    match th.pc
    case Idle => Go(s, t, if a.call.Lock? then TryLock else Check)
    case TryLock => if s.spin then Go(s, t, Compare) else Go(s, t, SetOwner).(spin := true)
    case SetOwner => Go(s, t, Load).(owner := Some(t))
    case Load => LoadTimes(s, t, Store)
    case Store => StoreTimes(s, t)
    case Compare => Go(s, t, if s.owner == Some(t) then Reload else TryLock)
    case Reload => LoadTimes(s, t, Restore)
    case Restore => StoreTimes(s, t)
    case Check => Go(s, t, if s.owner == Some(t) then CheckTimes else Panicked)
    case CheckTimes => Go(s, t, if s.times != 0 then UnLoad else Panicked)
    case UnLoad => LoadTimes(s, t, UnStore)
    case UnStore =>
      s.(times := th.reg - 1,
         threads := s.threads[t := th.(pc := if th.reg == 1 then ClearOwner else Idle, held := th.held - 1)])
    case ClearOwner => Go(s, t, Release).(owner := None)
    case Release => Go(s, t, Idle).(spin := s.spin && !clears)
    case Panicked => s
  }

  /** The state after a run. */
  function Run(s: State, run: seq<Action>, clears: bool): State
    decreases run
  {
    if run == [] then s else Run(Step(s, run[0], clears), run[1..], clears)
  }

  // ------------------------------------------------------------------ the invariant

  /** The thread is between winning the spinlock and giving it back. */
  predicate Inside(th: Thread) {
    th.held > 0 || th.pc in {SetOwner, Load, Store, ClearOwner, Release}
  }

  /** What the mutex looks like to a thread that is inside. */
  predicate Owns(s: State, t: Tid, th: Thread) {
    && s.times == th.held
    && (s.owner == if th.pc in {SetOwner, Release} then None else Some(t))
    && (th.pc in {SetOwner, Load, Store, ClearOwner, Release} ==> th.held == 0)
    && (th.pc in {Store, Restore, UnStore} ==> th.reg == s.times)
    && th.pc != Panicked
  }

  /** A thread that is not inside is at none of the steps that need the mutex. */
  predicate Outside(th: Thread) {
    th.held == 0 && th.pc in {Idle, TryLock, Compare, Check, Panicked}
  }

  /** `inside` is the one thread that is inside, if any.  `dead` says that the spinlock was left
      locked by an unlock that did not clear it. */
  ghost predicate Inv(s: State, inside: Option<Tid>, dead: bool) {
    && (forall t <- s.threads :: Some(t) == inside <==> Inside(s.threads[t]))
    && (forall t <- s.threads :: Some(t) != inside ==> Outside(s.threads[t]))
    && s.spin == (inside.Some? || dead)
    && (dead ==> inside.None?)
    && match inside
       case Some(t) => t in s.threads && Owns(s, t, s.threads[t])
       case None => s.owner == None && s.times == 0
  }

  /** Who is inside after a step, and whether the spinlock is then left locked. */
  ghost function InsideAfter(s: State, a: Action, inside: Option<Tid>): Option<Tid> {
    if a.t !in s.threads then inside
    else if s.threads[a.t].pc == TryLock && !s.spin then Some(a.t)
    else if s.threads[a.t].pc == Release then None
    else inside
  }

  ghost predicate DeadAfter(s: State, a: Action, dead: bool, clears: bool) {
    dead || (a.t in s.threads && s.threads[a.t].pc == Release && !clears)
  }

  /** A step changes the mutex and its own thread only. */
  lemma OneThread(s: State, a: Action, clears: bool)
    ensures var s' := Step(s, a, clears);
      && s'.threads.Keys == s.threads.Keys
      && (a.t !in s.threads ==> s' == s)
      && forall t <- s.threads :: t != a.t ==> s'.threads[t] == s.threads[t]
  {
  }

  /** A step of the thread that is inside. */
  lemma InsideStep(s: State, a: Action, clears: bool)
    requires Inv(s, Some(a.t), false)
    ensures Inv(Step(s, a, clears), InsideAfter(s, a, Some(a.t)), DeadAfter(s, a, false, clears))
  {
    hide Step;
    OneThread(s, a, clears);
    InsideAlone(s, a, clears);
  }

  /** The same, on that thread and the mutex alone. */
  lemma InsideAlone(s: State, a: Action, clears: bool)
    requires a.t in s.threads && Inside(s.threads[a.t]) && Owns(s, a.t, s.threads[a.t]) && s.spin
    ensures var s', th := Step(s, a, clears), s.threads[a.t];
      && a.t in s'.threads
      && if th.pc == Release then
           Outside(s'.threads[a.t]) && s'.owner == None && s'.times == 0 && s'.spin == !clears
         else
           Inside(s'.threads[a.t]) && Owns(s', a.t, s'.threads[a.t]) && s'.spin
  {
  }

  /** A step of a thread that is not. */
  lemma OutsideStep(s: State, a: Action, clears: bool, inside: Option<Tid>, dead: bool)
    requires Inv(s, inside, dead) && inside != Some(a.t)
    ensures Inv(Step(s, a, clears), InsideAfter(s, a, inside), DeadAfter(s, a, dead, clears))
  {
    hide Step;
    OneThread(s, a, clears);
    if a.t in s.threads {
      OutsideAlone(s, a, clears);
    }
  }

  lemma OutsideAlone(s: State, a: Action, clears: bool)
    requires a.t in s.threads && Outside(s.threads[a.t]) && s.owner != Some(a.t)
    ensures var s', th := Step(s, a, clears), s.threads[a.t];
      && a.t in s'.threads && s'.owner == s.owner && s'.times == s.times
      && if th.pc == TryLock && !s.spin then
           s'.spin && s'.threads[a.t] == th.(pc := SetOwner)
         else
           s'.spin == s.spin && Outside(s'.threads[a.t])
  {
  }

  lemma StepKeeps(s: State, a: Action, clears: bool, inside: Option<Tid>, dead: bool)
    requires Inv(s, inside, dead)
    ensures Inv(Step(s, a, clears), InsideAfter(s, a, inside), DeadAfter(s, a, dead, clears))
  {
    hide Step;
    if inside == Some(a.t) {
      InsideStep(s, a, clears);
    } else {
      OutsideStep(s, a, clears, inside, dead);
    }
  }

  // ------------------------------------------------------------------ runs

  /** The invariant over a whole run.  Who is inside at the end, and whether the spinlock is stuck. */
  lemma {:induction false} RunKeeps(s: State, run: seq<Action>, clears: bool, inside0: Option<Tid>, dead0: bool)
    returns (inside: Option<Tid>, dead: bool)
    requires Inv(s, inside0, dead0)
    ensures Inv(Run(s, run, clears), inside, dead)
    ensures (dead0 ==> dead) && (clears && dead ==> dead0)
    decreases run
  {
    hide Step, Inv;
    inside, dead := inside0, dead0;
    if run != [] {
      StepKeeps(s, run[0], clears, inside, dead);
      inside, dead := RunKeeps(Step(s, run[0], clears), run[1..], clears,
                               InsideAfter(s, run[0], inside), DeadAfter(s, run[0], dead, clears));
    }
  }

  lemma FromStart(ts: set<Tid>, run: seq<Action>, clears: bool) returns (inside: Option<Tid>, dead: bool)
    ensures Inv(Run(Init(ts), run, clears), inside, dead) && (clears ==> !dead)
  {
    inside, dead := RunKeeps(Init(ts), run, clears, None, false);
  }

  /** After any run of any threads, whatever they call and however their steps interleave, at most
      one thread has locks outstanding; `lock_thread` names it, `lock_times` is their number and the
      spinlock is locked. */
  lemma MutualExclusion(ts: set<Tid>, run: seq<Action>, clears: bool, t: Tid, u: Tid)
    requires var s := Run(Init(ts), run, clears);
      t in s.threads && u in s.threads && s.threads[t].held > 0
    ensures var s := Run(Init(ts), run, clears);
      && (s.threads[u].held > 0 ==> u == t) && s.threads[u].held >= 0
      && s.spin && s.owner == Some(t) && s.times == s.threads[t].held
  {
    hide Run, Init;
    var _, _ := FromStart(ts, run, clears);
  }

  /** A thread about to compare `lock_thread` with itself is let in exactly when it holds the mutex,
      however stale the failed try is by then. */
  lemma StaleReadNeverAdmits(ts: set<Tid>, run: seq<Action>, clears: bool, t: Tid, call: Call)
    requires var s := Run(Init(ts), run, clears);
      t in s.threads && s.threads[t].pc == Compare
    ensures var s := Run(Init(ts), run, clears);
      var s' := Step(s, Action(t, call), clears);
      s'.threads[t].pc == if s.threads[t].held > 0 then Reload else TryLock
  {
    hide Run, Init;
    var _, _ := FromStart(ts, run, clears);
  }

  /** The checks of unlock pass for exactly the threads that hold the mutex, and no holder is ever
      stopped by one. */
  lemma OnlyHoldersUnlock(ts: set<Tid>, run: seq<Action>, clears: bool, t: Tid, call: Call)
    requires var s := Run(Init(ts), run, clears);
      t in s.threads
    ensures var s := Run(Init(ts), run, clears);
      var th, s' := s.threads[t], Step(s, Action(t, call), clears);
      && (th.held > 0 ==> th.pc != Panicked)
      && (th.pc == Check ==> s'.threads[t].pc == if th.held > 0 then CheckTimes else Panicked)
      && (th.pc == CheckTimes ==> s'.threads[t].pc == UnLoad)
  {
    hide Run, Init;
    var _, _ := FromStart(ts, run, clears);
  }

  /** When no thread is inside, the mutex is as `ps_init_rec_mutex` left it, so the next try locks. */
  lemma FreeAgain(ts: set<Tid>, run: seq<Action>)
    requires var s := Run(Init(ts), run, true);
      forall t <- s.threads :: !Inside(s.threads[t])
    ensures var s := Run(Init(ts), run, true);
      !s.spin && s.owner == None && s.times == 0
  {
    hide Run, Init;
    var _, _ := FromStart(ts, run, true);
  }

  /** The spinlock's unlock assigns its parameter and leaves the lock set.  With that body, once any
      thread has gone through the release step, no thread ever gets the mutex again. */
  lemma NeverAgain(ts: set<Tid>, before: seq<Action>, a: Action, after: seq<Action>, t: Tid)
    requires var s := Run(Init(ts), before, false);
      a.t in s.threads && s.threads[a.t].pc == Release
    requires var s := Run(Step(Run(Init(ts), before, false), a, false), after, false);
      t in s.threads
    ensures var s := Run(Step(Run(Init(ts), before, false), a, false), after, false);
      s.spin && s.threads[t].held == 0
  {
    hide Run, Init, Step;
    var s := Run(Init(ts), before, false);
    var inside, dead := FromStart(ts, before, false);
    StepKeeps(s, a, false, inside, dead);
    var _, _ := RunKeeps(Step(s, a, false), after, false, InsideAfter(s, a, inside), DeadAfter(s, a, dead, false));
  }

  // ------------------------------------------------------------------ counting calls

  /** The step completes a call of `ps_lock_rec_mutex` or of `ps_unlock_rec_mutex`. */
  predicate Completes(s: State, a: Action, clears: bool, call: Call) {
    && a.t in s.threads
    && (s.threads[a.t].pc in
          if call.Lock? then {TryLock, SetOwner, Load, Store, Compare, Reload, Restore}
          else {Check, CheckTimes, UnLoad, UnStore, ClearOwner, Release})
    && var s' := Step(s, a, clears); a.t in s'.threads && s'.threads[a.t].pc == Idle
  }

  /** How many calls of the kind thread t completes in a run. */
  function Completed(s: State, run: seq<Action>, clears: bool, t: Tid, call: Call): nat
    decreases run
  {
    if run == [] then 0
    else
      (if run[0].t == t && Completes(s, run[0], clears, call) then 1 else 0)
      + Completed(Step(s, run[0], clears), run[1..], clears, t, call)
  }

  /** The unlock has counted down and is about to give the mutex back. */
  predicate Leaving(th: Thread) {
    th.pc in {ClearOwner, Release}
  }

  /** The locks a thread has outstanding, the one that an unlock is just undoing included. */
  function Outstanding(th: Thread): int {
    th.held + if Leaving(th) then 1 else 0
  }

  /** Every completed lock, first or re-entrant, leaves the caller holding the mutex with one more on
      the count. */
  lemma LockCounts(s: State, a: Action, clears: bool, inside: Option<Tid>, dead: bool)
    requires Inv(s, inside, dead) && Completes(s, a, clears, Lock)
    ensures var s' := Step(s, a, clears); s'.times == s.times + 1 && s'.owner == Some(a.t) && s'.spin
  {
  }

  /** The decrement of an unlock takes one off the count; the call goes on to give the mutex back exactly
      when nothing is left, and otherwise it is done and the caller still holds the mutex. */
  lemma UnlockCounts(s: State, a: Action, clears: bool, inside: Option<Tid>, dead: bool)
    requires Inv(s, inside, dead) && a.t in s.threads && s.threads[a.t].pc == UnStore
    ensures var s' := Step(s, a, clears);
      && s'.times == s.times - 1 && s'.owner == Some(a.t) && s'.spin && a.t in s'.threads
      && (s'.threads[a.t].pc == if s'.times == 0 then ClearOwner else Idle)
  {
  }

  /** An unlock completes by counting down to something left, or, from a count of zero, by giving the
      mutex back. */
  lemma UnlockCompletes(s: State, a: Action, clears: bool, inside: Option<Tid>, dead: bool)
    requires Inv(s, inside, dead) && Completes(s, a, clears, Unlock)
    ensures var s' := Step(s, a, clears);
      if s.times == 0 then s'.times == 0 && s'.owner == None && s'.spin == !clears
      else s'.times == s.times - 1 > 0 && s'.owner == Some(a.t) && s'.spin
  {
  }

  /** A step changes the locks outstanding of a thread by the calls it completes, and by nothing else. */
  lemma OutstandingStep(s: State, a: Action, clears: bool, inside: Option<Tid>, dead: bool, t: Tid)
    requires Inv(s, inside, dead) && t in s.threads
    ensures var s' := Step(s, a, clears);
      && t in s'.threads
      && Outstanding(s'.threads[t]) == Outstanding(s.threads[t])
           + (if a.t == t && Completes(s, a, clears, Lock) then 1 else 0)
           - (if a.t == t && Completes(s, a, clears, Unlock) then 1 else 0)
  {
    hide Step, Completes, Outstanding;
    OneThread(s, a, clears);
    if a.t == t {
      OutstandingAlone(s, a, clears);
    }
  }

  lemma OutstandingAlone(s: State, a: Action, clears: bool)
    requires a.t in s.threads && (Outside(s.threads[a.t]) || Owns(s, a.t, s.threads[a.t]))
    ensures var s' := Step(s, a, clears);
      && a.t in s'.threads
      && Outstanding(s'.threads[a.t]) == Outstanding(s.threads[a.t])
           + (if Completes(s, a, clears, Lock) then 1 else 0) - (if Completes(s, a, clears, Unlock) then 1 else 0)
  {
  }

  lemma {:induction false} OutstandingRun(s: State, run: seq<Action>, clears: bool, inside: Option<Tid>, dead: bool,
                                          t: Tid)
    requires Inv(s, inside, dead) && t in s.threads
    ensures var s' := Run(s, run, clears);
      && t in s'.threads
      && Outstanding(s'.threads[t]) == Outstanding(s.threads[t])
           + Completed(s, run, clears, t, Lock) - Completed(s, run, clears, t, Unlock)
    decreases run
  {
    hide Step, Inv, Outstanding, Completes;
    if run != [] {
      StepKeeps(s, run[0], clears, inside, dead);
      OutstandingStep(s, run[0], clears, inside, dead, t);
      OutstandingRun(Step(s, run[0], clears), run[1..], clears,
                     InsideAfter(s, run[0], inside), DeadAfter(s, run[0], dead, clears), t);
    }
  }

  /** After any run, a thread between calls holds the mutex exactly when it has completed more locks
      than unlocks; `lock_times` is then the difference. */
  lemma CallsCount(ts: set<Tid>, run: seq<Action>, clears: bool, t: Tid)
    requires t in ts
    ensures var s := Run(Init(ts), run, clears);
      var n := Completed(Init(ts), run, clears, t, Lock) - Completed(Init(ts), run, clears, t, Unlock);
      && n >= 0 && t in s.threads && s.threads[t].held == n - (if Leaving(s.threads[t]) then 1 else 0)
      && (s.threads[t].pc == Idle ==> (s.owner == Some(t) <==> n > 0) && (n > 0 ==> s.spin && s.times == n))
  {
    hide Run, Completed, Step;
    var _, _ := FromStart(ts, run, clears);
    OutstandingRun(Init(ts), run, clears, None, false, t);
  }

  /** When all threads are between calls and each has undone its locks, the mutex is free. */
  lemma BalancedIsFree(ts: set<Tid>, run: seq<Action>)
    requires var s := Run(Init(ts), run, true);
      forall t <- ts :: t in s.threads && s.threads[t].pc == Idle
    requires forall t <- ts :: Completed(Init(ts), run, true, t, Lock) == Completed(Init(ts), run, true, t, Unlock)
    ensures var s := Run(Init(ts), run, true);
      !s.spin && s.owner == None && s.times == 0
  {
    hide Run, Completed, Step, Inv;
    var s := Run(Init(ts), run, true);
    RunThreads(Init(ts), run, true);
    forall t <- s.threads
      ensures !Inside(s.threads[t])
    {
      CallsCount(ts, run, true, t);
    }
    FreeAgain(ts, run);
  }

  lemma {:induction false} RunThreads(s: State, run: seq<Action>, clears: bool)
    ensures Run(s, run, clears).threads.Keys == s.threads.Keys
    decreases run
  {
    hide Step;
    if run != [] {
      OneThread(s, run[0], clears);
      RunThreads(Step(s, run[0], clears), run[1..], clears);
    }
  }

  // ------------------------------------------------------------------ calls return

  /** The steps of a call by a thread that has `held` locks outstanding. */
  function Path(call: Call, held: int): seq<Pc> {
    match call
    case Lock => [Idle, TryLock, Compare, Reload, Restore, Idle]
    case Unlock =>
      [Idle, Check, CheckTimes, UnLoad, UnStore] + if held == 1 then [ClearOwner, Release, Idle] else [Idle]
  }

  /** Thread t has taken k of these steps. */
  predicate Along(s: State, t: Tid, call: Call, held: int, k: nat) {
    && t in s.threads && k < |Path(call, held)| && s.threads[t].pc == Path(call, held)[k]
    && s.threads[t].held == held + if k < 5 then 0 else if call.Lock? then 1 else -1
  }

  /** How many steps of a run are those of thread t. */
  function Own(run: seq<Action>, t: Tid): nat {
    if run == [] then 0 else (if run[0].t == t then 1 else 0) + Own(run[1..], t)
  }

  /** One of them leads to the next. */
  lemma PathStep(s: State, a: Action, clears: bool, held: int, k: nat)
    requires a.t in s.threads && Owns(s, a.t, s.threads[a.t]) && s.spin && held > 0
    requires Along(s, a.t, a.call, held, k) && k + 1 < |Path(a.call, held)|
    ensures Along(Step(s, a, clears), a.t, a.call, held, k + 1)
  {
  }

  /** A thread on its way through a call is inside. */
  lemma AlongInside(s: State, inside: Option<Tid>, dead: bool, t: Tid, call: Call, held: int, k: nat)
    requires Inv(s, inside, dead) && held > 0 && Along(s, t, call, held, k) && k + 1 < |Path(call, held)|
    ensures Owns(s, t, s.threads[t]) && s.spin
  {
    assert Inside(s.threads[t]);
  }

  lemma {:induction false} Follows(s: State, run: seq<Action>, clears: bool, inside: Option<Tid>, dead: bool,
                                   t: Tid, call: Call, held: int, k: nat)
    requires Inv(s, inside, dead) && held > 0 && Along(s, t, call, held, k)
    requires k + Own(run, t) < |Path(call, held)| && forall a <- run :: a.t == t ==> a.call == call
    ensures Along(Run(s, run, clears), t, call, held, k + Own(run, t))
    decreases run
  {
    hide Step, Inv, Owns, Path;
    if run != [] {
      StepKeeps(s, run[0], clears, inside, dead);
      var k' := k;
      if run[0].t == t {
        AlongInside(s, inside, dead, t, call, held, k);
        PathStep(s, run[0], clears, held, k);
        k' := k + 1;
      } else {
        OneThread(s, run[0], clears);
      }
      Follows(Step(s, run[0], clears), run[1..], clears,
              InsideAfter(s, run[0], inside), DeadAfter(s, run[0], dead, clears), t, call, held, k');
    }
  }

  /** A call by a thread that holds the mutex returns after a fixed number of its own steps, whatever the other
      threads do meanwhile: a lock after five with one more lock outstanding, an unlock after five with one
      fewer, or after seven when that was the last. */
  lemma CallReturns(ts: set<Tid>, before: seq<Action>, run: seq<Action>, clears: bool, t: Tid, call: Call)
    requires var s := Run(Init(ts), before, clears);
      && t in s.threads && s.threads[t].pc == Idle && s.threads[t].held > 0
      && Own(run, t) == if call.Unlock? && s.threads[t].held == 1 then 7 else 5
    requires forall a <- run :: a.t == t ==> a.call == call
    ensures var s := Run(Init(ts), before, clears);
      var s' := Run(s, run, clears);
      && t in s'.threads && s'.threads[t].pc == Idle
      && s'.threads[t].held == s.threads[t].held + if call.Lock? then 1 else -1
  {
    hide Run, Init, Step;
    var s := Run(Init(ts), before, clears);
    var inside, dead := FromStart(ts, before, clears);
    Follows(s, run, clears, inside, dead, t, call, s.threads[t].held, 0);
  }

  /** One lock and one unlock of a single thread. */
  function LockUnlock(t: Tid): (run: seq<Action>)
    ensures |run| == 11
  {
    var lock, unlock := Action(t, Lock), Action(t, Unlock);
    [lock, lock, lock, lock, lock, unlock, unlock, unlock, unlock, unlock, unlock]
  }

  lemma Two(s: State, run: seq<Action>, clears: bool)
    requires |run| >= 2
    ensures Run(s, run, clears) == Run(Step(Step(s, run[0], clears), run[1], clears), run[2..], clears)
  {
    hide Step;
    assert run[1..][0] == run[1] && run[1..][1..] == run[2..];
  }

  lemma Three(s: State, run: seq<Action>, clears: bool)
    requires |run| >= 3
    ensures var s' := Step(Step(Step(s, run[0], clears), run[1], clears), run[2], clears);
      Run(s, run, clears) == Run(s', run[3..], clears)
  {
    hide Step;
    Two(s, run, clears);
    assert run[2..][0] == run[2] && run[2..][1..] == run[3..];
  }

  lemma FiveLocks(s: State, t: Tid, clears: bool)
    requires t in s.threads && s.threads[t] == Thread(Idle, 0, 0) && !s.spin && s.times == 0
    ensures var lock := Action(t, Lock);
      var s' := Step(Step(Step(Step(Step(s, lock, clears), lock, clears), lock, clears), lock, clears), lock, clears);
      t in s'.threads && s'.threads[t] == Thread(Idle, 0, 1) && s'.spin && s'.owner == Some(t) && s'.times == 1
  {
  }

  lemma ThreeUnlocks(s: State, t: Tid, clears: bool)
    requires t in s.threads && s.threads[t].held == 1 && s.spin && s.times == 1
    requires if s.threads[t].pc == Idle then s.owner == Some(t) else s.threads[t].pc == UnLoad
    ensures var unlock := Action(t, Unlock);
      var s' := Step(Step(Step(s, unlock, clears), unlock, clears), unlock, clears);
      && t in s'.threads && s'.spin
      && if s.threads[t].pc == Idle then
           s'.threads[t] == s.threads[t].(pc := UnLoad) && s'.owner == Some(t) && s'.times == 1
         else s'.threads[t] == Thread(Release, 1, 0) && s'.owner == None && s'.times == 0
  {
  }

  /** They bring it to the release step, so `NeverAgain` speaks of runs that there are. */
  lemma ReachesRelease(ts: set<Tid>, t: Tid, clears: bool)
    requires t in ts
    ensures var s := Run(Init(ts), LockUnlock(t), clears);
      t in s.threads && s.threads[t] == Thread(Release, 1, 0) && s.spin && s.owner == None && s.times == 0
  {
    hide Step;
    var s0, run := Init(ts), LockUnlock(t);
    Three(s0, run, clears);
    var s1 := Step(Step(Step(s0, run[0], clears), run[1], clears), run[2], clears);
    Two(s1, run[3..], clears);
    var s2 := Step(Step(s1, run[3], clears), run[4], clears);
    Three(s2, run[5..], clears);
    var s3 := Step(Step(Step(s2, run[5], clears), run[6], clears), run[7], clears);
    Three(s3, run[8..], clears);
    assert run[3..][2..] == run[5..] && run[5..][3..] == run[8..] && run[8..][3..] == [];
    FiveLocks(s0, t, clears);
    ThreeUnlocks(s2, t, clears);
    ThreeUnlocks(s3, t, clears);
  }
}
