/** The lock-free reference count (`refcount_c11.c`) against the locked one (`refcount_lock.c`). */
module RefCount {
  import opened Common

  /** `CRYPTO_REFCOUNT_MAX`, where the count saturates. */
  const Max: int := 0xFFFF_FFFF

  // ---- The locked form -----------------------------------------------------------------------

  /** `CRYPTO_refcount_inc` under the lock. */
  function LockedInc(count: uint32): uint32 { if count < Max then count + 1 else count }

  /** `CRYPTO_refcount_dec_and_test_zero` under the lock: None aborts the process. */
  function LockedDec(count: uint32): Option<(uint32, bool)> {
    if count == 0 then None
    else
      var count' := if count < Max then count - 1 else count;
      Some((count', count' == 0))
  }

  class LockedCount {
    var count: uint32

    constructor (initial: uint32)
      ensures count == initial
    {
      count := initial;
    }

    method Inc()
      modifies this
      ensures count == LockedInc(old(count))
    {
      if count < Max { count := count + 1; }
    }

    method DecAndTestZero() returns (ret: Option<bool>)
      modifies this
      ensures match LockedDec(old(count))
              case None => ret == None && count == old(count)
              case Some(r) => count == r.0 && ret == Some(r.1)
    {
      if count == 0 { return None; }
      if count < Max { count := count - 1; }
      ret := Some(count == 0);
    }
  }

  // ---- The lock-free form --------------------------------------------------------------------

  /** Where a thread stands: outside, or in the compare-exchange loop of an operation with the value it expects. */
  datatype Pc = Idle | Incrementing(expected: uint32) | Decrementing(expected: uint32)

  /** A thread, and how many references it owns. */
  datatype Thread = Thread(pc: Pc, held: nat)

  /** The shared word, the threads, how many decrements have reported zero, and whether one has aborted. */
  datatype System = System(count: uint32, threads: seq<Thread>, zeros: nat, aborted: bool)

  /** A step of one thread: the load that begins an operation, a weak compare-exchange, or passing a reference on. */
  datatype Action =
    | LoadInc(t: nat)
    | LoadDec(t: nat)
    | Exchange(t: nat, spurious: bool)
    | Give(from: nat, to: nat)

  /** What a step is, seen from outside: nothing, or one whole operation. */
  datatype Event = Silent | Inced | Deced(zero: bool) | Aborts

  predicate Enabled(s: System, a: Action) {
    && !s.aborted
    && match a
       case LoadInc(t) => t < |s.threads| && s.threads[t].pc.Idle? && s.threads[t].held >= 1
       case LoadDec(t) => t < |s.threads| && s.threads[t].pc.Idle? && s.threads[t].held >= 1
       case Exchange(t, _) => t < |s.threads| && !s.threads[t].pc.Idle?
       case Give(from, to) =>
         from < |s.threads| && to < |s.threads| && from != to
         && s.threads[from].held > if s.threads[from].pc.Idle? then 0 else 1
  }

  function Put(s: System, t: nat, pc: Pc, held: nat): System
    requires t < |s.threads|
  {
    s.(threads := s.threads[t := Thread(pc, held)])
  }

  /** The test at the head of the increment's loop: a saturated count ends it. */
  function TestInc(s: System, t: nat, expected: uint32): (System, Event)
    requires t < |s.threads|
  {
    var held := s.threads[t].held;
    if expected == Max then (Put(s, t, Idle, held + 1), Inced) else (Put(s, t, Incrementing(expected), held), Silent)
  }

  /** The tests at the head of the decrement's loop: zero aborts, a saturated count ends it. */
  function TestDec(s: System, t: nat, expected: uint32): (System, Event)
    requires t < |s.threads| && s.threads[t].held >= 1
  {
    var held := s.threads[t].held;
    if expected == 0 then (s.(aborted := true), Aborts)
    else if expected == Max then (Put(s, t, Idle, held - 1), Deced(false))
    else (Put(s, t, Decrementing(expected), held), Silent)
  }

  /**
   * One step. A failed exchange, spurious or not, loads the current value, and the loop tests it before it tries
   * again; those tests touch nothing shared, so they belong to the load.
   */
  function Step(s: System, a: Action): (System, Event)
    requires Enabled(s, a) && Owning(s)
  {
    match a
    case LoadInc(t) => TestInc(s, t, s.count)
    case LoadDec(t) => TestDec(s, t, s.count)
    case Give(from, to) =>
      var s1 := Put(s, from, s.threads[from].pc, s.threads[from].held - 1);
      (Put(s1, to, s1.threads[to].pc, s1.threads[to].held + 1), Silent)
    case Exchange(t, spurious) =>
      var th := s.threads[t];
      match th.pc
      case Incrementing(expected) =>
        if s.count == expected && !spurious && expected < Max
        then (Put(s, t, Idle, th.held + 1).(count := expected + 1), Inced)
        else TestInc(s, t, s.count)
      case Decrementing(expected) =>
        if s.count == expected && !spurious && expected > 0
        then
          var s1 := Put(s, t, Idle, th.held - 1).(count := expected - 1);
          (s1.(zeros := s1.zeros + if expected - 1 == 0 then 1 else 0), Deced(expected - 1 == 0))
        else TestDec(s, t, s.count)
      case Idle => (s, Silent)
  }

  /** A thread in the middle of an operation owns a reference, and never expects a value its loop would not try. */
  predicate Owning(s: System) {
    forall t :: 0 <= t < |s.threads| && !s.threads[t].pc.Idle? ==>
      && s.threads[t].held >= 1 && s.threads[t].pc.expected < Max
      && (s.threads[t].pc.Decrementing? ==> s.threads[t].pc.expected > 0)
  }

  lemma {:induction false} StepKeepsOwning(s: System, a: Action)
    requires Enabled(s, a) && Owning(s)
    ensures Owning(Step(s, a).0)
  {
  }

  // ---- Refinement ----------------------------------------------------------------------------

  /**
   * Every step of every thread is invisible, or is exactly one operation of the locked count at that moment, with the
   * same result; the process aborts exactly where the locked form would.
   */
  lemma {:induction false} StepRefinesLocked(s: System, a: Action)
    requires Enabled(s, a) && Owning(s)
    ensures var r := Step(s, a);
            match r.1
            case Silent => r.0.count == s.count
            case Inced => r.0.count == LockedInc(s.count)
            case Deced(zero) => LockedDec(s.count) == Some((r.0.count, zero))
            case Aborts => LockedDec(s.count) == None && r.0.count == s.count
  {
  }

  /** A run of steps of any threads, and the operations seen from outside, in order. */
  predicate Runs(s: System, actions: seq<Action>, events: seq<Event>, s': System)
    decreases |actions|
  {
    if actions == [] then events == [] && s' == s
    else
      && Owning(s) && Enabled(s, actions[0])
      && var r := Step(s, actions[0]);
         if r.1.Silent? then Runs(r.0, actions[1..], events, s')
         else events != [] && events[0] == r.1 && Runs(r.0, actions[1..], events[1..], s')
  }

  /** The same operations made one after the other on the locked count, with these results; an abort is the last. */
  predicate LockedRun(count: uint32, events: seq<Event>, count': uint32)
    decreases |events|
  {
    if events == [] then count' == count
    else match events[0]
      case Silent => false
      case Inced => LockedRun(LockedInc(count), events[1..], count')
      case Deced(zero) => LockedDec(count).Some? && LockedDec(count).value.1 == zero && LockedRun(LockedDec(count).value.0, events[1..], count')
      case Aborts => LockedDec(count).None? && events[1..] == [] && count' == count
  }

  /**
   * Under every interleaving, saturated or not: what is seen of a run is a run of the locked count, one operation at a
   * time, with the same results, the same final count, and an abort exactly where it would abort.
   */
  lemma {:induction false} RunRefinesLocked(s: System, actions: seq<Action>, events: seq<Event>, s': System)
    requires Runs(s, actions, events, s')
    ensures LockedRun(s.count, events, s'.count)
    ensures s'.aborted && !s.aborted <==> events != [] && events[|events| - 1].Aborts?
    decreases |actions|
  {
    if actions != [] {
      var r := Step(s, actions[0]);
      StepRefinesLocked(s, actions[0]);
      if r.1.Silent? { RunRefinesLocked(r.0, actions[1..], events, s'); }
      else {
        RunRefinesLocked(r.0, actions[1..], events[1..], s');
        if r.1.Aborts? { assert actions[1..] == []; }
      }
    }
  }

  /** The count moves by at most one, never wraps in either direction, and stays where it saturates. */
  lemma {:induction false} NeverWraps(s: System, a: Action)
    requires Enabled(s, a) && Owning(s)
    ensures s.count - 1 <= Step(s, a).0.count <= s.count + 1
    ensures s.count == Max ==> Step(s, a).0.count == Max
  {
  }

  // ---- Balanced references -------------------------------------------------------------------

  function Total(ts: seq<Thread>): nat {
    if ts == [] then 0 else Total(ts[..|ts| - 1]) + ts[|ts| - 1].held
  }

  lemma {:induction false} TotalUpdate(ts: seq<Thread>, t: nat, th: Thread)
    requires t < |ts|
    ensures Total(ts[t := th]) == Total(ts) - ts[t].held + th.held
  {
    var n := |ts| - 1;
    if t == n {
      assert ts[t := th][..n] == ts[..n];
    } else {
      assert ts[t := th][..n] == ts[..n][t := th];
      TotalUpdate(ts[..n], t, th);
    }
  }

  lemma {:induction false} TotalAtLeast(ts: seq<Thread>, t: nat)
    requires t < |ts|
    ensures Total(ts) >= ts[t].held
  {
    if t < |ts| - 1 { TotalAtLeast(ts[..|ts| - 1], t); }
  }

  /** The count is the number of references, and zero has been reported exactly once if there are none left. */
  predicate Balanced(s: System) {
    && Owning(s) && !s.aborted && s.count == Total(s.threads)
    && s.zeros == if s.count == 0 then 1 else 0
  }

  lemma {:induction false} StepBalanced(s: System, a: Action)
    requires Enabled(s, a) && Balanced(s) && s.count < Max && Step(s, a).0.count < Max
    ensures Balanced(Step(s, a).0)
  {
    StepKeepsOwning(s, a);
    var r := Step(s, a).0;
    match a {
      case Give(from, to) =>
        var th := Thread(s.threads[from].pc, s.threads[from].held - 1);
        TotalUpdate(s.threads, from, th);
        var ts := s.threads[from := th];
        TotalUpdate(ts, to, Thread(ts[to].pc, ts[to].held + 1));
      case LoadInc(t) =>
        TotalAtLeast(s.threads, t);
        if t < |r.threads| { TotalUpdate(s.threads, t, r.threads[t]); }
      case LoadDec(t) =>
        TotalAtLeast(s.threads, t);
        TotalUpdate(s.threads, t, r.threads[t]);
      case Exchange(t, _) =>
        TotalAtLeast(s.threads, t);
        TotalUpdate(s.threads, t, r.threads[t]);
    }
  }

  /** A step moves references as it is seen to: an increment makes one, a decrement takes one, nothing else does. */
  lemma {:induction false} StepMovesReferences(s: System, a: Action)
    requires Enabled(s, a) && Owning(s)
    ensures var r := Step(s, a);
            Total(r.0.threads) == Total(s.threads) + match r.1 case Inced => 1 case Deced(_) => -1 case _ => 0
    ensures a.Exchange? && a.spurious ==> Step(s, a).0.count == s.count
  {
    var r := Step(s, a).0;
    match a {
      case Give(from, to) =>
        var th := Thread(s.threads[from].pc, s.threads[from].held - 1);
        TotalUpdate(s.threads, from, th);
        var ts := s.threads[from := th];
        TotalUpdate(ts, to, Thread(ts[to].pc, ts[to].held + 1));
      case LoadInc(t) => TotalUpdate(s.threads, t, r.threads[t]);
      case LoadDec(t) => TotalUpdate(s.threads, t, r.threads[t]);
      case Exchange(t, _) => TotalUpdate(s.threads, t, r.threads[t]);
    }
  }

  /** The count is the number of references, or it has saturated and will never be zero. */
  predicate Covers(s: System) {
    Owning(s) && !s.aborted && (s.count == Max || s.count == Total(s.threads))
  }

  /** Saturated or not, no decrement aborts, and zero is reported only when the last reference is gone. */
  lemma {:induction false} StepCovers(s: System, a: Action)
    requires Enabled(s, a) && Covers(s)
    ensures Covers(Step(s, a).0)
    ensures Step(s, a).1 == Deced(true) ==> Total(Step(s, a).0.threads) == 0
  {
    hide Total, Owning;
    assert Owning(s) && Owning(Step(s, a).0) by { StepKeepsOwning(s, a); }
    StepMovesReferences(s, a);
    OwnerCounts(s, a);
    StepRefinesLocked(s, a);
    AbortsAtZero(s, a);
  }

  lemma {:induction false} OwnerCounts(s: System, a: Action)
    requires Enabled(s, a) && Owning(s)
    ensures Total(s.threads) >= 1
  {
    var t := match a case LoadInc(t) => t case LoadDec(t) => t case Exchange(t, _) => t case Give(from, _) => from;
    TotalAtLeast(s.threads, t);
  }

  lemma {:induction false} AbortsAtZero(s: System, a: Action)
    requires Enabled(s, a) && Owning(s)
    ensures Step(s, a).0.aborted <==> Step(s, a).1.Aborts?
  {
  }

  /** Once zero has been reported, nobody can do anything with the count any more. */
  lemma {:induction false} ZeroIsLast(s: System, a: Action)
    requires Balanced(s) && s.count == 0
    ensures !Enabled(s, a)
  {
    var t := match a case LoadInc(t) => t case LoadDec(t) => t case Exchange(t, _) => t case Give(from, _) => from;
    if t < |s.threads| { TotalAtLeast(s.threads, t); }
  }

  /** A run of steps, each allowed and none reaching saturation. */
  predicate RunsTo(s: System, actions: seq<Action>, s': System)
    decreases |actions|
  {
    if actions == [] then s' == s
    else Owning(s) && Enabled(s, actions[0]) && Step(s, actions[0]).0.count < Max && RunsTo(Step(s, actions[0]).0, actions[1..], s')
  }

  lemma {:induction false} RunBalanced(s: System, actions: seq<Action>, s': System)
    requires Balanced(s) && s.count < Max && RunsTo(s, actions, s')
    ensures Balanced(s')
    decreases |actions|
  {
    if actions != [] {
      StepBalanced(s, actions[0]);
      RunBalanced(Step(s, actions[0]).0, actions[1..], s');
    }
  }

  /**
   * Under every interleaving, with spurious failures anywhere: starting from one reference for each count, no
   * decrement aborts, at most one reports zero, one has reported it exactly when no reference is left, and then
   * no thread has anything left to do.
   */
  lemma {:induction false} ExactlyOneZero(threads: seq<Thread>, count: uint32, actions: seq<Action>, s: System)
    requires (forall t :: 0 <= t < |threads| ==> threads[t].pc.Idle?) && 1 <= count < Max && Total(threads) == count
    requires RunsTo(System(count, threads, 0, false), actions, s)
    ensures !s.aborted && s.zeros <= 1 && (s.zeros == 1 <==> Total(s.threads) == 0)
    ensures s.zeros == 1 ==> forall a: Action :: !Enabled(s, a)
  {
    RunBalanced(System(count, threads, 0, false), actions, s);
    if s.zeros == 1 {
      forall a: Action ensures !Enabled(s, a) { ZeroIsLast(s, a); }
    }
  }
}
