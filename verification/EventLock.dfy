/** Who polls, who closes and who sleeps: the event-handling protocol of a libusb context, as a
    transition system in which any number of threads take turns, one shared access at a time. */
module EventLock {
  import opened Wrappers

  /** Where a thread stands. */
  datatype Pc =
    | Idle
    // libusb_try_lock_events, and libusb_lock_events called directly
    | TryCheck | TryLock | DirectLock | SetActive
    // handling events; a completed transfer broadcasts to the waiters
    | Polling | CbLock | CbBroadcast | CbUnlock
    // libusb_unlock_events
    | ClearActive | UnlockEvents | LockToBroadcast | Broadcast | UnlockWaiters
    // waiting for another event handler
    | WaitLock | CheckModify | CheckActive | Retry | Decided | Sleeping | Woken | LeaveWait
    // libusb_close and usbi_fd_notification
    | ModInc | ModWrite | ModLock | ModSetActive | ModRead | ModClose | ModDec

  predicate HoldsEvents(pc: Pc) {
    pc.SetActive? || IsActive(pc) || pc.UnlockEvents? || pc.ModSetActive?
  }

  /** Holds the events lock and has declared itself the event handler. */
  predicate IsActive(pc: Pc) {
    || pc.Polling? || pc.CbLock? || pc.CbBroadcast? || pc.CbUnlock? || pc.ClearActive?
    || pc.ModRead? || pc.ModClose? || pc.ModDec?
  }

  predicate HoldsWaiters(pc: Pc) {
    || pc.CbBroadcast? || pc.CbUnlock? || pc.Broadcast? || pc.UnlockWaiters?
    || pc.CheckModify? || pc.CheckActive? || pc.Retry? || pc.Decided? || pc.LeaveWait?
  }

  /** Between incrementing and decrementing pollfd_modify. */
  predicate Modifying(pc: Pc) {
    pc.ModWrite? || pc.ModLock? || pc.ModSetActive? || pc.ModRead? || pc.ModClose? || pc.ModDec?
  }

  /** Between writing to the control pipe and reading from it. */
  predicate InPipe(pc: Pc) {
    pc.ModLock? || pc.ModSetActive? || pc.ModRead?
  }

  /** Will broadcast to the waiters before it is done. */
  predicate Owes(pc: Pc) {
    HoldsEvents(pc) || Modifying(pc) || pc.LockToBroadcast? || pc.Broadcast?
  }

  predicate Waiting(pc: Pc) {
    pc == Sleeping || pc == Decided
  }

  datatype State = State(pcs: seq<Pc>, eventsLock: Option<nat>, active: bool, modifiers: int, pipe: int,
                         waitersLock: Option<nat>)
  {
    function Go(t: nat, pc: Pc): State
      requires t < |pcs|
    {
      this.(pcs := pcs[t := pc])
    }
  }

  predicate Init(s: State) {
    && (forall t :: 0 <= t < |s.pcs| ==> s.pcs[t] == Idle)
    && s.eventsLock == None && !s.active && s.modifiers == 0 && s.pipe == 0 && s.waitersLock == None
  }

  function WakeAll(pcs: seq<Pc>): (r: seq<Pc>)
    ensures |r| == |pcs|
  {
    if pcs == [] then [] else [if pcs[0] == Sleeping then Woken else pcs[0]] + WakeAll(pcs[1..])
  }

  lemma {:induction false} WakeAllAt(pcs: seq<Pc>, t: nat)
    requires t < |pcs|
    ensures WakeAll(pcs)[t] == if pcs[t] == Sleeping then Woken else pcs[t]
  {
    if t > 0 {
      WakeAllAt(pcs[1..], t - 1);
    }
  }

  // One step of thread t. A thread that must wait for a lock, or for a byte in the pipe, has no step.

  /** Starting something. */
  predicate StartStep(s: State, t: nat, s': State)
    requires t < |s.pcs|
  {
    match s.pcs[t]
    case Idle => s' == s.Go(t, TryCheck) || s' == s.Go(t, DirectLock) || s' == s.Go(t, ModInc)
    case TryCheck => s' == s.Go(t, if s.modifiers != 0 then WaitLock else TryLock)
    case _ => false
  }

  /** Becoming the event handler. */
  predicate AcquireStep(s: State, t: nat, s': State)
    requires t < |s.pcs|
  {
    match s.pcs[t]
    case TryLock =>
      s' == if s.eventsLock == None then s.Go(t, SetActive).(eventsLock := Some(t)) else s.Go(t, WaitLock)
    case DirectLock => s.eventsLock == None && s' == s.Go(t, SetActive).(eventsLock := Some(t))
    case SetActive => s' == s.Go(t, Polling).(active := true)
    case _ => false
  }

  /** Handling events: poll returns, and transfers complete. */
  predicate HandleStep(s: State, t: nat, s': State)
    requires t < |s.pcs|
  {
    match s.pcs[t]
    case Polling => s' == s.Go(t, CbLock) || s' == s.Go(t, ClearActive)
    case CbLock => s.waitersLock == None && s' == s.Go(t, CbBroadcast).(waitersLock := Some(t))
    case CbBroadcast => s' == s.(pcs := WakeAll(s.pcs)).Go(t, CbUnlock)
    case CbUnlock => s' == s.Go(t, Polling).(waitersLock := None)
    case _ => false
  }

  /** Giving up event handling. */
  predicate ReleaseStep(s: State, t: nat, s': State)
    requires t < |s.pcs|
  {
    match s.pcs[t]
    case ClearActive => s' == s.Go(t, UnlockEvents).(active := false)
    case UnlockEvents => s' == s.Go(t, LockToBroadcast).(eventsLock := None)
    case LockToBroadcast => s.waitersLock == None && s' == s.Go(t, Broadcast).(waitersLock := Some(t))
    case Broadcast => s' == s.(pcs := WakeAll(s.pcs)).Go(t, UnlockWaiters)
    case UnlockWaiters => s' == s.Go(t, Idle).(waitersLock := None)
    case _ => false
  }

  /** Finding out whether there is another event handler to wait for. */
  predicate CheckStep(s: State, t: nat, s': State)
    requires t < |s.pcs|
  {
    match s.pcs[t]
    case WaitLock => s.waitersLock == None && s' == s.Go(t, CheckModify).(waitersLock := Some(t))
    case CheckModify => s' == s.Go(t, if s.modifiers != 0 then Decided else CheckActive)
    case CheckActive => s' == s.Go(t, if s.active then Decided else Retry)
    case Retry => s' == s.Go(t, TryCheck).(waitersLock := None)
    case _ => false
  }

  /** Waiting for it, with the timeout as a way out of the sleep. */
  predicate WaitStep(s: State, t: nat, s': State)
    requires t < |s.pcs|
  {
    match s.pcs[t]
    case Decided => s' == s.Go(t, Sleeping).(waitersLock := None)
    case Sleeping => s' == s.Go(t, Woken)
    case Woken => s.waitersLock == None && s' == s.Go(t, LeaveWait).(waitersLock := Some(t))
    case LeaveWait => s' == s.Go(t, Idle).(waitersLock := None)
    case _ => false
  }

  /** Opening or closing a device. */
  predicate ModifyStep(s: State, t: nat, s': State)
    requires t < |s.pcs|
  {
    match s.pcs[t]
    case ModInc => s' == s.Go(t, ModWrite).(modifiers := s.modifiers + 1)
    case ModWrite => s' == s.Go(t, ModLock).(pipe := s.pipe + 1)
    case ModLock => s.eventsLock == None && s' == s.Go(t, ModSetActive).(eventsLock := Some(t))
    case ModSetActive => s' == s.Go(t, ModRead).(active := true)
    case ModRead => s.pipe > 0 && s' == s.Go(t, ModClose).(pipe := s.pipe - 1)
    case ModClose => s' == s.Go(t, ModDec)
    case ModDec => s' == s.Go(t, ClearActive).(modifiers := s.modifiers - 1)
    case _ => false
  }

  predicate Step(s: State, t: nat, s': State)
    requires t < |s.pcs|
  {
    || StartStep(s, t, s') || AcquireStep(s, t, s') || HandleStep(s, t, s') || ReleaseStep(s, t, s')
    || CheckStep(s, t, s') || WaitStep(s, t, s') || ModifyStep(s, t, s')
  }

  // ---- counting threads ----

  function Count(pcs: seq<Pc>, p: Pc -> bool): (n: nat) {
    if pcs == [] then 0 else (if p(pcs[0]) then 1 else 0) + Count(pcs[1..], p)
  }

  lemma {:induction false} CountUpdate(pcs: seq<Pc>, p: Pc -> bool, t: nat, pc: Pc)
    requires t < |pcs|
    ensures Count(pcs[t := pc], p)
         == Count(pcs, p) + (if p(pc) then 1 else 0) - (if p(pcs[t]) then 1 else 0)
  {
    if t > 0 {
      CountUpdate(pcs[1..], p, t - 1, pc);
      assert pcs[t := pc][1..] == pcs[1..][t - 1 := pc];
    } else {
      assert pcs[t := pc][1..] == pcs[1..];
    }
  }

  lemma {:induction false} CountPositive(pcs: seq<Pc>, p: Pc -> bool)
    ensures Count(pcs, p) > 0 <==> exists t :: 0 <= t < |pcs| && p(pcs[t])
  {
    if pcs != [] {
      CountPositive(pcs[1..], p);
      if exists t :: 0 <= t < |pcs| && p(pcs[t]) {
        var t :| 0 <= t < |pcs| && p(pcs[t]);
        assert t > 0 ==> p(pcs[1..][t - 1]);
      }
      if exists t :: 0 <= t < |pcs[1..]| && p(pcs[1..][t]) {
        var t :| 0 <= t < |pcs[1..]| && p(pcs[1..][t]);
        assert p(pcs[t + 1]);
      }
    }
  }

  lemma {:induction false} CountIgnoresWaking(pcs: seq<Pc>, p: Pc -> bool)
    requires !p(Sleeping) && !p(Woken)
    ensures Count(WakeAll(pcs), p) == Count(pcs, p)
  {
    if pcs != [] {
      CountIgnoresWaking(pcs[1..], p);
      assert WakeAll(pcs)[1..] == WakeAll(pcs[1..]);
    }
  }

  // ---- the invariant ----

  /** The locks are held by exactly the threads that stand inside their critical sections. */
  ghost predicate LocksOk(s: State) {
    && (forall t :: 0 <= t < |s.pcs| ==> (HoldsEvents(s.pcs[t]) <==> s.eventsLock == Some(t)))
    && (forall t :: 0 <= t < |s.pcs| ==> (HoldsWaiters(s.pcs[t]) <==> s.waitersLock == Some(t)))
    && (s.eventsLock.Some? ==> s.eventsLock.value < |s.pcs|)
    && (s.waitersLock.Some? ==> s.waitersLock.value < |s.pcs|)
  }

  /** A handler is marked active exactly while the holder of the events lock is one. */
  ghost predicate ActiveOk(s: State)
    requires LocksOk(s)
  {
    s.active <==> s.eventsLock.Some? && IsActive(s.pcs[s.eventsLock.value])
  }

  /** pollfd_modify counts the threads in their modify windows, and the pipe holds one byte for each
      thread between its write and its read. */
  ghost predicate CountsOk(s: State) {
    s.modifiers == Count(s.pcs, Modifying) && s.pipe == Count(s.pcs, InPipe)
  }

  /** While a thread sleeps, or has decided to, some thread owes a broadcast. */
  ghost predicate WakeupsOk(s: State) {
    (exists t :: 0 <= t < |s.pcs| && Waiting(s.pcs[t])) ==> exists u :: 0 <= u < |s.pcs| && Owes(s.pcs[u])
  }

  ghost predicate Inv(s: State) {
    LocksOk(s) && ActiveOk(s) && CountsOk(s) && WakeupsOk(s)
  }

  /** How a step of thread t treats a lock that t holds before, or after. */
  predicate LockEffect(lock: Option<nat>, lock': Option<nat>, before: bool, after: bool, t: nat) {
    if before == after then lock' == lock
    else if after then lock == None && lock' == Some(t)
    else lock' == None
  }

  function Bit(b: bool): int { if b then 1 else 0 }

  /** The threads after a step of t, which wakes all sleepers if it is a broadcast. */
  function Moved(pcs: seq<Pc>, t: nat, pc: Pc): seq<Pc>
    requires t < |pcs|
  {
    if pcs[t].CbBroadcast? || pcs[t].Broadcast? then WakeAll(pcs)[t := pc] else pcs[t := pc]
  }

  /** What a step changes, seen from thread t. */
  predicate Effect(s: State, t: nat, s': State)
    requires t < |s.pcs|
  {
    |s'.pcs| == |s.pcs|
    && var (pc, pc') := (s.pcs[t], s'.pcs[t]);
       && s'.pcs == Moved(s.pcs, t, pc')
       && LockEffect(s.eventsLock, s'.eventsLock, HoldsEvents(pc), HoldsEvents(pc'), t)
       && LockEffect(s.waitersLock, s'.waitersLock, HoldsWaiters(pc), HoldsWaiters(pc'), t)
       && s'.active == (if IsActive(pc) == IsActive(pc') then s.active else IsActive(pc'))
       && s'.modifiers == s.modifiers + Bit(Modifying(pc')) - Bit(Modifying(pc))
       && s'.pipe == s.pipe + Bit(InPipe(pc')) - Bit(InPipe(pc))
       && (Owes(pc) && !Owes(pc') ==> pc == Broadcast)
       && (Waiting(pc') && !Waiting(pc) ==>
             pc' == Decided && ((pc == CheckModify && s.modifiers != 0) || (pc == CheckActive && s.active)))
  }

  lemma StartEffect(s: State, t: nat, s': State)
    requires t < |s.pcs| && StartStep(s, t, s')
    ensures Effect(s, t, s')
  {
    hide WakeAll;
  }

  lemma AcquireEffect(s: State, t: nat, s': State)
    requires t < |s.pcs| && AcquireStep(s, t, s')
    ensures Effect(s, t, s')
  {
    hide WakeAll;
  }

  lemma HandleEffect(s: State, t: nat, s': State)
    requires t < |s.pcs| && HandleStep(s, t, s')
    ensures Effect(s, t, s')
  {
    hide WakeAll;
  }

  lemma ReleaseEffect(s: State, t: nat, s': State)
    requires t < |s.pcs| && ReleaseStep(s, t, s')
    ensures Effect(s, t, s')
  {
    hide WakeAll;
  }

  lemma CheckEffect(s: State, t: nat, s': State)
    requires t < |s.pcs| && CheckStep(s, t, s')
    ensures Effect(s, t, s')
  {
    hide WakeAll;
  }

  lemma WaitEffect(s: State, t: nat, s': State)
    requires t < |s.pcs| && WaitStep(s, t, s')
    ensures Effect(s, t, s')
  {
    hide WakeAll;
  }

  lemma ModifyEffect(s: State, t: nat, s': State)
    requires t < |s.pcs| && ModifyStep(s, t, s')
    ensures Effect(s, t, s')
  {
    hide WakeAll;
  }

  lemma StepEffect(s: State, t: nat, s': State)
    requires t < |s.pcs| && Step(s, t, s')
    ensures Effect(s, t, s')
  {
    hide StartStep, AcquireStep, HandleStep, ReleaseStep, CheckStep, WaitStep, ModifyStep, Effect;
    if StartStep(s, t, s') {
      StartEffect(s, t, s');
    } else if AcquireStep(s, t, s') {
      AcquireEffect(s, t, s');
    } else if HandleStep(s, t, s') {
      HandleEffect(s, t, s');
    } else if ReleaseStep(s, t, s') {
      ReleaseEffect(s, t, s');
    } else if CheckStep(s, t, s') {
      CheckEffect(s, t, s');
    } else if WaitStep(s, t, s') {
      WaitEffect(s, t, s');
    } else {
      ModifyEffect(s, t, s');
    }
  }

  lemma MovedOthers(pcs: seq<Pc>, t: nat, pc: Pc, u: nat)
    requires t < |pcs| && u < |pcs| && u != t
    ensures Moved(pcs, t, pc)[t] == pc
    ensures Moved(pcs, t, pc)[u] == pcs[u] || (pcs[u] == Sleeping && Moved(pcs, t, pc)[u] == Woken)
    ensures pcs[t] == Broadcast ==> Moved(pcs, t, pc)[u] != Sleeping
  {
    WakeAllAt(pcs, u);
    hide WakeAll;
  }

  lemma StepKeepsLocks(s: State, t: nat, s': State)
    requires t < |s.pcs| && LocksOk(s) && ActiveOk(s) && Effect(s, t, s')
    ensures LocksOk(s') && ActiveOk(s')
  {
    hide Moved;
    forall u | 0 <= u < |s.pcs|
      ensures HoldsEvents(s'.pcs[u]) <==> s'.eventsLock == Some(u)
      ensures HoldsWaiters(s'.pcs[u]) <==> s'.waitersLock == Some(u)
      ensures u != t ==> (IsActive(s'.pcs[u]) <==> IsActive(s.pcs[u]))
    {
      if u != t {
        MovedOthers(s.pcs, t, s'.pcs[t], u);
      }
    }
  }

  lemma CountMoved(pcs: seq<Pc>, p: Pc -> bool, t: nat, pc: Pc)
    requires t < |pcs| && !p(Sleeping) && !p(Woken)
    ensures Count(Moved(pcs, t, pc), p) == Count(pcs, p) + Bit(p(pc)) - Bit(p(pcs[t]))
  {
    hide Count, WakeAll;
    if pcs[t].CbBroadcast? || pcs[t].Broadcast? {
      WakeAllAt(pcs, t);
      CountIgnoresWaking(pcs, p);
      CountUpdate(WakeAll(pcs), p, t, pc);
    } else {
      CountUpdate(pcs, p, t, pc);
    }
  }

  lemma StepKeepsCounts(s: State, t: nat, s': State)
    requires t < |s.pcs| && CountsOk(s) && Effect(s, t, s')
    ensures CountsOk(s')
  {
    CountMoved(s.pcs, Modifying, t, s'.pcs[t]);
    CountMoved(s.pcs, InPipe, t, s'.pcs[t]);
    hide LockEffect, HoldsEvents, HoldsWaiters, Moved;
  }

  /** A thread stops owing a broadcast only by broadcasting, and then nobody waits: the sleepers are woken,
      and nobody else can be about to sleep, since that takes the waiters lock. */
  lemma BroadcastEndsWaiting(s: State, t: nat, s': State, u: nat)
    requires t < |s.pcs| && u < |s.pcs| && LocksOk(s) && Effect(s, t, s') && Owes(s.pcs[t]) && !Owes(s'.pcs[t])
    ensures !Waiting(s'.pcs[u])
  {
    assert s.pcs[t] == Broadcast && s.waitersLock == Some(t);
    assert s.pcs[u] == Decided ==> u == t;
    if u != t {
      MovedOthers(s.pcs, t, s'.pcs[t], u);
    }
    hide LocksOk, LockEffect, Moved;
  }

  /** A thread decides to sleep only because some other thread is modifying, or is the event handler. */
  lemma DecidingFindsDebtor(s: State, t: nat, s': State) returns (u: nat)
    requires t < |s.pcs| && LocksOk(s) && ActiveOk(s) && CountsOk(s) && Effect(s, t, s')
    requires Waiting(s'.pcs[t]) && !Waiting(s.pcs[t])
    ensures u < |s.pcs| && u != t && Owes(s.pcs[u])
  {
    if s.modifiers != 0 {
      CountPositive(s.pcs, Modifying);
      u :| 0 <= u < |s.pcs| && Modifying(s.pcs[u]);
    } else {
      u := s.eventsLock.value;
    }
  }

  lemma StepKeepsWakeups(s: State, t: nat, s': State)
    requires t < |s.pcs| == |s'.pcs| && Inv(s) && Effect(s, t, s')
    ensures WakeupsOk(s')
  {
    hide LocksOk, ActiveOk, CountsOk, Effect, Moved, Owes, Waiting;
    if w: nat :| w < |s'.pcs| && Waiting(s'.pcs[w]) {
      if Owes(s.pcs[t]) && !Owes(s'.pcs[t]) {
        BroadcastEndsWaiting(s, t, s', w);
      } else {
        var u: nat;
        if Waiting(s'.pcs[t]) && !Waiting(s.pcs[t]) {
          u := DecidingFindsDebtor(s, t, s');
        } else {
          OthersKeepWaiting(s, t, s', w);
          u :| u < |s.pcs| && Owes(s.pcs[u]);
        }
        OthersKeepOwing(s, t, s', u);
      }
    }
  }

  lemma OthersKeepWaiting(s: State, t: nat, s': State, w: nat)
    requires t < |s.pcs| && w < |s.pcs| && Effect(s, t, s') && Waiting(s'.pcs[w])
    requires Waiting(s'.pcs[t]) ==> Waiting(s.pcs[t])
    ensures Waiting(s.pcs[w])
  {
    hide LockEffect;
    if w != t {
      MovedOthers(s.pcs, t, s'.pcs[t], w);
    }
  }

  lemma OthersKeepOwing(s: State, t: nat, s': State, u: nat)
    requires t < |s.pcs| && u < |s.pcs| && Effect(s, t, s') && Owes(s.pcs[u])
    requires Owes(s.pcs[t]) ==> Owes(s'.pcs[t])
    ensures Owes(s'.pcs[u])
  {
    hide LockEffect;
    if u != t {
      MovedOthers(s.pcs, t, s'.pcs[t], u);
    }
  }

  lemma EffectSize(s: State, t: nat, s': State)
    requires t < |s.pcs| && Effect(s, t, s')
    ensures |s'.pcs| == |s.pcs|
  {
  }

  lemma StepKeepsInv(s: State, t: nat, s': State)
    requires t < |s.pcs| && Inv(s) && Step(s, t, s')
    ensures Inv(s')
  {
    hide Step, Effect, LocksOk, ActiveOk, CountsOk, WakeupsOk;
    StepEffect(s, t, s');
    EffectSize(s, t, s');
    StepKeepsLocks(s, t, s');
    StepKeepsCounts(s, t, s');
    StepKeepsWakeups(s, t, s');
  }

  // ---- whole runs ----

  /** Every interleaving of any number of threads: at each point some thread takes one step. */
  ghost predicate Run(states: seq<State>, schedule: seq<nat>) {
    && |states| == |schedule| + 1 && Init(states[0])
    && forall i :: 0 <= i < |schedule| ==>
         schedule[i] < |states[i].pcs| && Step(states[i], schedule[i], states[i + 1])
  }

  lemma {:induction false} CountOfIdle(pcs: seq<Pc>, p: Pc -> bool)
    requires !p(Idle) && forall t :: 0 <= t < |pcs| ==> pcs[t] == Idle
    ensures Count(pcs, p) == 0
  {
    if pcs != [] {
      CountOfIdle(pcs[1..], p);
    }
  }

  lemma InitInv(s: State)
    requires Init(s)
    ensures Inv(s)
  {
    CountOfIdle(s.pcs, Modifying);
    CountOfIdle(s.pcs, InPipe);
  }

  lemma RunStep(states: seq<State>, schedule: seq<nat>, i: nat)
    ensures Run(states, schedule) ==> |states| == |schedule| + 1 && Init(states[0])
    ensures Run(states, schedule) && i < |schedule| ==>
              schedule[i] < |states[i].pcs| && Step(states[i], schedule[i], states[i + 1])
  {
  }

  lemma {:induction false} RunKeepsInv(states: seq<State>, schedule: seq<nat>, i: nat)
    requires i < |states|
    ensures Run(states, schedule) ==> Inv(states[i])
  {
    hide Run, Step, Inv, Init;
    if Run(states, schedule) {
      RunStep(states, schedule, if i == 0 then 0 else i - 1);
      if i == 0 {
        InitInv(states[0]);
      } else {
        RunKeepsInv(states, schedule, i - 1);
        StepKeepsInv(states[i - 1], schedule[i - 1], states[i]);
      }
    }
  }

  /** Main result: no wakeup is ever lost. While a thread sleeps, another one holds the events lock, is inside
      an open or close window, or is on its way to the broadcast that ends event handling. */
  lemma NoLostWakeup(states: seq<State>, schedule: seq<nat>, i: nat, t: nat)
    requires Run(states, schedule) && i < |states| && t < |states[i].pcs| && states[i].pcs[t] == Sleeping
    ensures exists u :: 0 <= u < |states[i].pcs| && u != t && Owes(states[i].pcs[u])
  {
    RunKeepsInv(states, schedule, i);
    assert Waiting(states[i].pcs[t]);
    var u: nat :| u < |states[i].pcs| && Owes(states[i].pcs[u]);
    assert u != t;
  }

  /** Main result: polling and closing exclude each other and themselves. */
  lemma PollingExcludesClosing(states: seq<State>, schedule: seq<nat>, i: nat, t: nat, u: nat)
    requires Run(states, schedule) && i < |states| && t < |states[i].pcs| && u < |states[i].pcs|
    requires IsActive(states[i].pcs[t]) && IsActive(states[i].pcs[u])
    ensures t == u && states[i].eventsLock == Some(t) && states[i].active
  {
    RunKeepsInv(states, schedule, i);
    assert HoldsEvents(states[i].pcs[t]) && HoldsEvents(states[i].pcs[u]);
  }

  /** The flag says that the events lock is held; the counter and the pipe count the modifiers. */
  lemma CountersAreExact(states: seq<State>, schedule: seq<nat>, i: nat)
    requires Run(states, schedule) && i < |states|
    ensures var s := states[i];
            && (s.active ==> s.eventsLock.Some?)
            && s.modifiers == Count(s.pcs, Modifying) && s.pipe == Count(s.pcs, InPipe)
  {
    RunKeepsInv(states, schedule, i);
  }

  /** Reading the control pipe under the lock never blocks, and while a modifier waits for the lock
      there is a byte in the pipe that makes the current handler's poll return. */
  lemma PipeIsReady(states: seq<State>, schedule: seq<nat>, i: nat, t: nat)
    requires Run(states, schedule) && i < |states| && t < |states[i].pcs| && InPipe(states[i].pcs[t])
    ensures states[i].pipe > 0
  {
    RunKeepsInv(states, schedule, i);
    CountPositive(states[i].pcs, InPipe);
  }

  /** What the flag and the counter decide for a thread that looks at them, and that nobody comes to where these
      decisions lead without having made them. */
  predicate Decides(pc: Pc, pc': Pc, modifiers: int, active: bool, eventsLock: Option<nat>) {
    && (pc.TryLock? ==> pc' == SetActive || pc' == WaitLock)
    && (pc.TryLock? ==> (pc'.SetActive? <==> eventsLock.None?))
    && (pc.TryCheck? ==> pc' == TryLock || pc' == WaitLock)
    && (pc.TryCheck? ==> (pc'.TryLock? <==> modifiers == 0))
    && (pc.CheckModify? ==> pc' == Decided || pc' == CheckActive)
    && (pc.CheckModify? ==> (pc'.Decided? <==> modifiers != 0))
    && (pc.CheckActive? ==> pc' == Decided || pc' == Retry)
    && (pc.CheckActive? ==> (pc'.Decided? <==> active))
    && (pc.Retry? ==> pc'.TryCheck?)
    && (pc'.TryLock? ==> pc.TryCheck?)
    && (pc'.Idle? ==> pc.UnlockWaiters? || pc.LeaveWait?)
  }

  lemma StepDecides(s: State, t: nat, s': State)
    requires t < |s.pcs| && Step(s, t, s')
    ensures |s'.pcs| == |s.pcs| && Decides(s.pcs[t], s'.pcs[t], s.modifiers, s.active, s.eventsLock)
  {
    hide WakeAll, StartStep, AcquireStep, HandleStep, ReleaseStep, CheckStep, WaitStep, ModifyStep, Decides;
    if StartStep(s, t, s') {
      LookDecides(s, t, s');
    } else if AcquireStep(s, t, s') {
      LookDecides(s, t, s');
    } else if CheckStep(s, t, s') {
      LookDecides(s, t, s');
    } else if HandleStep(s, t, s') {
      HandleDecides(s, t, s');
    } else if ReleaseStep(s, t, s') {
      HandleDecides(s, t, s');
    } else {
      OtherDecides(s, t, s');
    }
  }

  lemma LookDecides(s: State, t: nat, s': State)
    requires t < |s.pcs| && (StartStep(s, t, s') || AcquireStep(s, t, s') || CheckStep(s, t, s'))
    ensures |s'.pcs| == |s.pcs| && Decides(s.pcs[t], s'.pcs[t], s.modifiers, s.active, s.eventsLock)
  {
  }

  lemma HandleDecides(s: State, t: nat, s': State)
    requires t < |s.pcs| && (HandleStep(s, t, s') || ReleaseStep(s, t, s'))
    ensures |s'.pcs| == |s.pcs| && Decides(s.pcs[t], s'.pcs[t], s.modifiers, s.active, s.eventsLock)
  {
    hide WakeAll;
  }

  lemma OtherDecides(s: State, t: nat, s': State)
    requires t < |s.pcs| && (WaitStep(s, t, s') || ModifyStep(s, t, s'))
    ensures |s'.pcs| == |s.pcs| && Decides(s.pcs[t], s'.pcs[t], s.modifiers, s.active, s.eventsLock)
  {
  }

  /** What a thread finds that looks at the lock, the flag and the counter, one after the other: whether some thread
      holds the lock, is the event handler, or is inside an open or close window. */
  lemma LooksAreRight(states: seq<State>, schedule: seq<nat>, i: nat, t: nat)
    requires Run(states, schedule) && i < |schedule| && t == schedule[i]
    ensures t < |states[i].pcs| == |states[i + 1].pcs|
    ensures var (s, pc, pc') := (states[i], states[i].pcs[t], states[i + 1].pcs[t]);
            var modified := exists u :: 0 <= u < |s.pcs| && Modifying(s.pcs[u]);
            var handled := exists u :: 0 <= u < |s.pcs| && IsActive(s.pcs[u]);
            var held := exists u :: 0 <= u < |s.pcs| && HoldsEvents(s.pcs[u]);
            && (pc == TryCheck ==> pc' == if modified then WaitLock else TryLock)
            && (pc == TryLock ==> pc' == if held then WaitLock else SetActive)
            && (pc == CheckModify ==> pc' == if modified then Decided else CheckActive)
            && (pc == CheckActive ==> pc' == if handled then Decided else Retry)
            && (pc == Retry ==> pc' == TryCheck)
  {
    var s := states[i];
    RunKeepsInv(states, schedule, i);
    StepDecides(s, t, states[i + 1]);
    CountPositive(s.pcs, Modifying);
    hide Run, Step, Moved, LockEffect, Count, Owes, Waiting, WakeupsOk;
    if u: nat :| u < |s.pcs| && IsActive(s.pcs[u]) {
      assert HoldsEvents(s.pcs[u]) && s.eventsLock == Some(u);
    }
    if s.eventsLock.Some? {
      assert HoldsEvents(s.pcs[s.eventsLock.value]);
    }
  }

  predicate AtTryLock(pc: Pc) {
    pc.TryLock?
  }

  /** Thread t acquires the events lock through libusb_try_lock_events. */
  predicate Acquires(s: State, t: nat, s': State) {
    t < |s.pcs| == |s'.pcs| && s.pcs[t] == TryLock && s'.pcs[t] == SetActive
  }

  /** How often that happens between two points of a run. */
  function Acquired(states: seq<State>, schedule: seq<nat>, a: nat, b: nat): nat
    requires a <= b <= |schedule| < |states|
    decreases b - a
  {
    if a == b then 0
    else
      Acquired(states, schedule, a, b - 1)
      + if Acquires(states[b - 1], schedule[b - 1], states[b]) then 1 else 0
  }

  lemma PassesCheck(s: State, t: nat, s': State, u: nat)
    requires t < |s.pcs| == |s'.pcs| && u < |s.pcs| && Inv(s) && Effect(s, t, s') && Modifying(s.pcs[u])
    requires Decides(s.pcs[t], s'.pcs[t], s.modifiers, s.active, s.eventsLock)
    ensures Count(s'.pcs, AtTryLock) + (if Acquires(s, t, s') then 1 else 0)
         <= Count(s.pcs, AtTryLock)
  {
    CountPositive(s.pcs, Modifying);
    CountMoved(s.pcs, AtTryLock, t, s'.pcs[t]);
    hide LockEffect, Moved, Count;
  }

  /** Main result: while a thread is inside its open or close window, no thread newly passes the check of
      libusb_try_lock_events. Those that acquire the events lock that way had passed it before, and each of them
      does so once. */
  lemma {:induction false} WindowKeepsHandlersOut(states: seq<State>, schedule: seq<nat>, a: nat, b: nat, u: nat)
    requires Run(states, schedule) && a <= b <= |schedule| < |states|
    requires forall i :: a <= i < b ==> u < |states[i].pcs| && Modifying(states[i].pcs[u])
    ensures Count(states[b].pcs, AtTryLock) + Acquired(states, schedule, a, b)
         <= Count(states[a].pcs, AtTryLock)
    decreases b - a
  {
    hide Run, Step, Effect, Inv, Count, Modifying, Acquires;
    if a < b {
      WindowKeepsHandlersOut(states, schedule, a, b - 1, u);
      var (s, t, s') := (states[b - 1], schedule[b - 1], states[b]);
      RunStep(states, schedule, b - 1);
      RunKeepsInv(states, schedule, b - 1);
      StepEffect(s, t, s');
      StepDecides(s, t, s');
      PassesCheck(s, t, s', u);
    }
  }

  ghost predicate Enabled(s: State, t: nat) {
    t < |s.pcs| && exists s' :: Step(s, t, s')
  }

  lemma EnabledBy(s: State, t: nat, s': State)
    requires t < |s.pcs| && Step(s, t, s')
    ensures Enabled(s, t)
  {
  }

  /** A thread inside the waiters lock can always go on. */
  lemma WaitersHolderEnabled(s: State, t: nat)
    requires Inv(s) && t < |s.pcs| && HoldsWaiters(s.pcs[t])
    ensures Enabled(s, t)
  {
    hide Inv, WakeAll, Moved;
    var s' :=
      if s.pcs[t].CbBroadcast? then s.(pcs := WakeAll(s.pcs)).Go(t, CbUnlock)
      else if s.pcs[t].CbUnlock? then s.Go(t, Polling).(waitersLock := None)
      else if s.pcs[t].Broadcast? then s.(pcs := WakeAll(s.pcs)).Go(t, UnlockWaiters)
      else if s.pcs[t].UnlockWaiters? then s.Go(t, Idle).(waitersLock := None)
      else if s.pcs[t].CheckModify? then s.Go(t, if s.modifiers != 0 then Decided else CheckActive)
      else if s.pcs[t].CheckActive? then s.Go(t, if s.active then Decided else Retry)
      else if s.pcs[t].Retry? then s.Go(t, TryCheck).(waitersLock := None)
      else if s.pcs[t].Decided? then s.Go(t, Sleeping).(waitersLock := None)
      else s.Go(t, Idle).(waitersLock := None);
    EnabledBy(s, t, s');
  }

  /** If nobody is inside the waiters lock, the holder of the events lock can go on. */
  lemma EventsHolderEnabled(s: State, t: nat)
    requires Inv(s) && t < |s.pcs| && HoldsEvents(s.pcs[t]) && s.waitersLock == None
    ensures Enabled(s, t)
  {
    if s.pcs[t] == ModRead {
      CountPositive(s.pcs, InPipe);
    }
    var s' :=
      if s.pcs[t].SetActive? then s.Go(t, Polling).(active := true)
      else if s.pcs[t].Polling? then s.Go(t, ClearActive)
      else if s.pcs[t].CbLock? then s.Go(t, CbBroadcast).(waitersLock := Some(t))
      else if s.pcs[t].ClearActive? then s.Go(t, UnlockEvents).(active := false)
      else if s.pcs[t].UnlockEvents? then s.Go(t, LockToBroadcast).(eventsLock := None)
      else if s.pcs[t].ModSetActive? then s.Go(t, ModRead).(active := true)
      else if s.pcs[t].ModRead? then s.Go(t, ModClose).(pipe := s.pipe - 1)
      else if s.pcs[t].ModClose? then s.Go(t, ModDec)
      else s.Go(t, ClearActive).(modifiers := s.modifiers - 1);
    assert !HoldsWaiters(s.pcs[t]);
    EnabledBy(s, t, s');
  }

  /** If both locks are free, a thread that owes a broadcast can go on. */
  lemma DebtorEnabled(s: State, t: nat)
    requires Inv(s) && t < |s.pcs| && Owes(s.pcs[t]) && s.waitersLock == None && s.eventsLock == None
    ensures Enabled(s, t)
  {
    assert !HoldsEvents(s.pcs[t]) && !HoldsWaiters(s.pcs[t]);
    var s' :=
      if s.pcs[t].ModWrite? then s.Go(t, ModLock).(pipe := s.pipe + 1)
      else if s.pcs[t].ModLock? then s.Go(t, ModSetActive).(eventsLock := Some(t))
      else s.Go(t, Broadcast).(waitersLock := Some(t));
    EnabledBy(s, t, s');
  }

  /** Main result: a sleeper is never part of a deadlock. While a thread sleeps, some other thread can take
      a step, and it holds a lock or owes a broadcast: the debt is never stuck. */
  lemma SleepersAreServed(states: seq<State>, schedule: seq<nat>, i: nat, t: nat)
    requires Run(states, schedule) && i < |states| && t < |states[i].pcs| && states[i].pcs[t] == Sleeping
    ensures exists u: nat :: u < |states[i].pcs| && u != t && Enabled(states[i], u)
              && (HoldsWaiters(states[i].pcs[u]) || Owes(states[i].pcs[u]))
  {
    var s := states[i];
    RunKeepsInv(states, schedule, i);
    var u: nat;
    if s.waitersLock.Some? {
      u := s.waitersLock.value;
      WaitersHolderEnabled(s, u);
    } else if s.eventsLock.Some? {
      u := s.eventsLock.value;
      EventsHolderEnabled(s, u);
    } else {
      NoLostWakeup(states, schedule, i, t);
      u :| u < |s.pcs| && u != t && Owes(s.pcs[u]);
      DebtorEnabled(s, u);
    }
    hide Step, Enabled;
    assert u != t && (HoldsWaiters(s.pcs[u]) || Owes(s.pcs[u]));
  }
}
