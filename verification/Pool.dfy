/**
 * The bounded pool of repository handles as interleaved steps of its threads. Each step is what one
 * thread does while it holds the pool's lock, or one effect of the condition variable.
 */
module Pool {
  import opened Tallies

  type Handle = nat

  datatype Pc =
    | Outside
    | Wanting
    | Sleeping
    | Woken
    | Opening
    | Holding(handle: Handle)
    | MustNotify

  datatype State = State(idle: seq<Handle>, live: nat, max: nat, threads: seq<Pc>, nextHandle: Handle)

  /** A new pool opens nothing; its bound is at least one. */
  function Start(max: nat, n: nat): State {
    State([], 0, if max < 1 then 1 else max, seq(n, _ => Outside), 0)
  }

  datatype Event =
    /** A caller comes to `checkout`. */
    | Enter(t: nat)
    /** One round of the loop in `checkout`: take an idle handle, or reserve a slot, or wait. */
    | Attempt(t: nat)
    | Opened(t: nat)
    /** The reservation is given back; the notification is still to come. */
    | OpenFailed(t: nat)
    /** A handle is dropped into the queue; the notification is still to come. */
    | Drop(t: nat)
    /** `notify_one`: some sleeping thread, if there is one, is woken. */
    | Notify(t: nat, woken: nat)
    /** A wait may return on its own. */
    | Spurious(t: nat)

  predicate Enabled(s: State, e: Event) {
    e.t < |s.threads|
    && match e
       case Enter(t) => s.threads[t] == Outside
       case Attempt(t) => s.threads[t] == Wanting || s.threads[t] == Woken
       case Opened(t) => s.threads[t] == Opening
       case OpenFailed(t) => s.threads[t] == Opening
       case Drop(t) => s.threads[t].Holding?
       case Notify(t, w) =>
         s.threads[t] == MustNotify && (Sleeping in s.threads ==> w < |s.threads| && s.threads[w] == Sleeping)
       case Spurious(t) => s.threads[t] == Sleeping
  }

  function At(s: State, t: nat, pc: Pc): State
    requires t < |s.threads|
  {
    s.(threads := s.threads[t := pc])
  }

  function Step(s: State, e: Event): State
    requires Enabled(s, e)
  {
    match e
    case Enter(t) => At(s, t, Wanting)
    case Attempt(t) =>
      if |s.idle| > 0 then At(s, t, Holding(s.idle[0])).(idle := s.idle[1..])
      else if s.live < s.max then At(s, t, Opening).(live := s.live + 1)
      else At(s, t, Sleeping)
    case Opened(t) => At(s, t, Holding(s.nextHandle)).(nextHandle := s.nextHandle + 1)
    case OpenFailed(t) => At(s, t, MustNotify).(live := if s.live > 0 then s.live - 1 else 0)
    case Drop(t) => At(s, t, MustNotify).(idle := s.idle + [s.threads[t].handle])
    case Notify(t, w) => if Sleeping in s.threads then At(At(s, t, Outside), w, Woken) else At(s, t, Outside)
    case Spurious(t) => At(s, t, Woken)
  }

  // ---------------------------------------------------------------------------
  // Counting threads
  // ---------------------------------------------------------------------------

  function IsUsing(pc: Pc): nat {
    if pc.Holding? || pc == Opening then 1 else 0
  }

  function IsNotified(pc: Pc): nat {
    if pc == MustNotify || pc == Woken then 1 else 0
  }

  function Holds(h: Handle): Pc -> nat {
    (pc: Pc) => if pc == Holding(h) then 1 else 0
  }

  // ---------------------------------------------------------------------------
  // What every interleaving keeps
  // ---------------------------------------------------------------------------

  /** Every handle and every reservation is accounted for, within the bound. */
  predicate Accounted(s: State) {
    |s.idle| + Sum(s.threads, IsUsing) == s.live && s.live <= s.max
  }

  /** In how many places a handle is: idle, or held by a thread. */
  function Places(s: State, h: Handle): nat {
    multiset(s.idle)[h] + Sum(s.threads, Holds(h))
  }

  /** A handle is in one place at most; one not opened yet is in none. */
  ghost predicate Unshared(s: State) {
    forall h: Handle :: Places(s, h) <= 1 && (h >= s.nextHandle ==> Places(s, h) == 0)
  }

  /** While a thread sleeps, idle handles and free slots are outnumbered by wakeups on their way. */
  predicate NoLostWakeup(s: State) {
    Sleeping in s.threads ==> |s.idle| + s.max <= s.live + Sum(s.threads, IsNotified)
  }

  /** Where a step takes the thread that makes it. */
  function Next(s: State, e: Event): Pc
    requires Enabled(s, e)
  {
    match e
    case Enter(_) => Wanting
    case Attempt(_) => if |s.idle| > 0 then Holding(s.idle[0]) else if s.live < s.max then Opening else Sleeping
    case Opened(_) => Holding(s.nextHandle)
    case OpenFailed(_) => MustNotify
    case Drop(_) => MustNotify
    case Notify(_, _) => Outside
    case Spurious(_) => Woken
  }

  /**
   * A caller takes the handle idle longest; it opens another only when none is idle and waits only when it may open no
   * more. A handle comes back behind the others, and a failed opening gives its place up.
   */
  lemma HandlesAreReused(s: State, e: Event)
    requires Enabled(s, e)
    ensures e.Attempt? && |s.idle| > 0 ==>
            Step(s, e).threads[e.t] == Holding(s.idle[0]) && Step(s, e).idle == s.idle[1..] && Step(s, e).live == s.live
    ensures e.Attempt? && |s.idle| == 0 && s.live < s.max ==>
            Step(s, e).threads[e.t] == Opening && Step(s, e).idle == [] && Step(s, e).live == s.live + 1
    ensures e.Attempt? && |s.idle| == 0 && s.live >= s.max ==>
            Step(s, e).threads[e.t] == Sleeping && Step(s, e).idle == [] && Step(s, e).live == s.live
    ensures e.Drop? ==> Step(s, e).idle == s.idle + [s.threads[e.t].handle] && Step(s, e).live == s.live
    ensures e.OpenFailed? && s.live > 0 ==> Step(s, e).idle == s.idle && Step(s, e).live == s.live - 1
    ensures e.Notify? && Sleeping in s.threads ==> Step(s, e).threads[e.woken] == Woken && Step(s, e).threads[e.t] == Outside
  {
  }

  lemma StepSum(s: State, e: Event, weight: Pc -> nat)
    requires Enabled(s, e)
    ensures Sum(Step(s, e).threads, weight) + weight(s.threads[e.t])
            == Sum(s.threads, weight) + weight(Next(s, e))
               + if e.Notify? && Sleeping in s.threads then weight(Woken) - weight(Sleeping) else 0
  {
    SumUpdate(s.threads, weight, e.t, Next(s, e));
    if e.Notify? && Sleeping in s.threads {
      SumUpdate(s.threads[e.t := Outside], weight, e.woken, Woken);
    }
  }

  lemma StepAccounts(s: State, e: Event)
    requires Enabled(s, e) && Accounted(s)
    ensures Accounted(Step(s, e)) && Step(s, e).max == s.max
  {
    SumAtLeast(s.threads, IsUsing, e.t);
    StepSum(s, e, IsUsing);
  }

  lemma StepPlaces(s: State, e: Event, h: Handle)
    requires Enabled(s, e)
    ensures Places(Step(s, e), h) == Places(s, h) + if e.Opened? && h == s.nextHandle then 1 else 0
  {
    StepSum(s, e, Holds(h));
    StepIdle(s, e, h);
    hide Step;
    hide Sum;
  }

  /** What a step does to the queue of idle handles. */
  lemma StepIdle(s: State, e: Event, h: Handle)
    requires Enabled(s, e)
    ensures multiset(Step(s, e).idle)[h] + (if e.Attempt? then Holds(h)(Next(s, e)) else 0)
            == multiset(s.idle)[h] + if e.Drop? then Holds(h)(s.threads[e.t]) else 0
  {
    hide Sum;
    if e.Attempt? && |s.idle| > 0 {
      assert s.idle == [s.idle[0]] + s.idle[1..];
      assert multiset(s.idle) == multiset{s.idle[0]} + multiset(s.idle[1..]);
    }
  }

  lemma StepUnshares(s: State, e: Event)
    requires Enabled(s, e) && Unshared(s)
    ensures Unshared(Step(s, e))
  {
    forall h: Handle ensures Places(Step(s, e), h) <= 1 && (h >= Step(s, e).nextHandle ==> Places(Step(s, e), h) == 0) {
      StepPlaces(s, e, h);
      hide Places;
    }
  }

  lemma StepLosesNoWakeup(s: State, e: Event)
    requires Enabled(s, e) && Accounted(s) && NoLostWakeup(s)
    ensures NoLostWakeup(Step(s, e))
  {
    var after := Step(s, e);
    StepSum(s, e, IsNotified);
    if e.OpenFailed? {
      SumAtLeast(s.threads, IsUsing, e.t);
    }
    if Sleeping in after.threads && !(e.Attempt? && |s.idle| == 0 && s.live == s.max) {
      var t :| 0 <= t < |after.threads| && after.threads[t] == Sleeping;
      assert s.threads[t] == Sleeping;
    }
  }

  predicate Runs(s: State, events: seq<Event>)
    decreases |events|, 0
  {
    |events| == 0 || (Runs(s, events[..|events| - 1]) && Enabled(After(s, events[..|events| - 1]), events[|events| - 1]))
  }

  function After(s: State, events: seq<Event>): State
    requires Runs(s, events)
    decreases |events|, 1
  {
    if |events| == 0 then s else Step(After(s, events[..|events| - 1]), events[|events| - 1])
  }

  /**
   * In every interleaving of any number of threads: idle, held and opening handles add up to `live` within the
   * bound, no handle is in two places, and no wakeup is lost.
   */
  lemma {:induction false} EveryInterleaving(max: nat, n: nat, events: seq<Event>)
    requires Runs(Start(max, n), events)
    ensures var s := After(Start(max, n), events);
            Accounted(s) && Unshared(s) && NoLostWakeup(s) && s.max >= 1
    decreases |events|
  {
    var start := Start(max, n);
    if |events| == 0 {
      SumZero(start.threads, IsUsing);
      forall h: Handle ensures Places(start, h) == 0 {
        SumZero(start.threads, Holds(h));
      }
    } else {
      var rest, last := events[..|events| - 1], events[|events| - 1];
      EveryInterleaving(max, n, rest);
      var s := After(start, rest);
      StepAccounts(s, last);
      StepUnshares(s, last);
      StepLosesNoWakeup(s, last);
    }
  }

  /** Two threads never hold one handle, and a held handle is not idle. */
  lemma HandlesAreExclusive(max: nat, n: nat, events: seq<Event>, t: nat, u: nat)
    requires Runs(Start(max, n), events)
    requires var threads := After(Start(max, n), events).threads;
             t < u < |threads| && threads[t].Holding? && threads[u].Holding?
    ensures var s := After(Start(max, n), events);
            s.threads[t].handle != s.threads[u].handle && s.threads[t].handle !in s.idle && s.threads[u].handle !in s.idle
  {
    EveryInterleaving(max, n, events);
    var s := After(Start(max, n), events);
    var h, k := s.threads[t].handle, s.threads[u].handle;
    assert Places(s, h) <= 1 && Places(s, k) <= 1;
    SumAtLeastTwo(s.threads, Holds(h), t, u);
    SumAtLeast(s.threads, Holds(h), t);
    SumAtLeast(s.threads, Holds(k), u);
    assert h in s.idle ==> multiset(s.idle)[h] >= 1;
    assert k in s.idle ==> multiset(s.idle)[k] >= 1;
  }

  /**
   * The pool never hangs: a thread sleeps only while another holds or opens a handle, is on its
   * way to notify, or has been woken.
   */
  lemma NeverHangs(max: nat, n: nat, events: seq<Event>)
    requires Runs(Start(max, n), events)
    ensures var s := After(Start(max, n), events);
            Sleeping in s.threads ==>
              exists t :: 0 <= t < |s.threads| && (IsUsing(s.threads[t]) > 0 || IsNotified(s.threads[t]) > 0)
  {
    EveryInterleaving(max, n, events);
    var s := After(Start(max, n), events);
    if forall t :: 0 <= t < |s.threads| ==> IsUsing(s.threads[t]) == 0 && IsNotified(s.threads[t]) == 0 {
      SumZero(s.threads, IsUsing);
      SumZero(s.threads, IsNotified);
    }
  }

  /** A free handle or slot with a sleeper around has its own wakeup on the way. */
  lemma FreeHandleIsAnnounced(max: nat, n: nat, events: seq<Event>)
    requires Runs(Start(max, n), events)
    requires var s := After(Start(max, n), events); Sleeping in s.threads && (|s.idle| > 0 || s.live < s.max)
    ensures exists t :: 0 <= t < |After(Start(max, n), events).threads| && IsNotified(After(Start(max, n), events).threads[t]) > 0
  {
    EveryInterleaving(max, n, events);
    var s := After(Start(max, n), events);
    if forall t :: 0 <= t < |s.threads| ==> IsNotified(s.threads[t]) == 0 {
      SumZero(s.threads, IsNotified);
    }
  }
}
