/**
 The lock-free concurrency limiter (crates/heramind-agent/src/llm.rs) as a machine whose steps
 are single atomic accesses by any number of threads. All its accesses are `Relaxed`, so a load
 may return a stale value; only read-modify-write accesses see the newest one. Limits are computed
 over exact rationals.
 */
module ConcurrencyLimiter {
  import opened Basics

  const GB: nat := 1024 * 1024 * 1024

  function AtLeastOne(n: nat): nat {
    if n < 1 then 1 else n
  }

  /** The limit `update_dynamic_limit` stores, from the load it saw and the free memory. */
  function DynamicLimit(base: nat, seen: nat, memory: nat): nat {
    if memory < GB then AtLeastOne(base / 2)
    else if memory < 2 * GB then AtLeastOne(3 * base / 4)
    else if 5 * seen > 4 * base then AtLeastOne(17 * base / 20)
    else base
  }

  /** The stored limit stays between 1 and the configured one exactly for a positive configuration. */
  lemma LimitWithinBase(base: nat)
    ensures (forall seen, memory :: 1 <= DynamicLimit(base, seen, memory) <= base) <==> base >= 1
  {
    if base == 0 {
      assert DynamicLimit(base, 0, 0) == 1;
    }
  }

  /** Half, three quarters, 85% or all of the base, rounded down but never to zero. */
  ghost predicate IsShare(limit: nat, base: nat, percent: nat) {
    100 * limit <= percent * base < 100 * limit + 100 || (percent * base < 100 && limit == 1)
  }

  /** The limit by class: memory below 1 GB, below 2 GB, more with a load above 80%, and more with less. */
  lemma LimitByClass(base: nat, seen: nat, memory: nat)
    ensures memory < GB ==> IsShare(DynamicLimit(base, seen, memory), base, 50)
    ensures GB <= memory < 2 * GB ==> IsShare(DynamicLimit(base, seen, memory), base, 75)
    ensures memory >= 2 * GB && 100 * seen > 80 * base ==> IsShare(DynamicLimit(base, seen, memory), base, 85)
    ensures memory >= 2 * GB && 100 * seen <= 80 * base ==> DynamicLimit(base, seen, memory) == base
  {
  }

  /** With a positive base, less memory or more load never raises the limit. */
  lemma LimitIsMonotone(base: nat, seen: nat, memory: nat, seen': nat, memory': nat)
    requires base >= 1 && seen <= seen' && memory' <= memory
    ensures DynamicLimit(base, seen', memory') <= DynamicLimit(base, seen, memory)
  {
  }

  /** Where a thread stands inside `try_acquire`. */
  datatype Pc = Idle | SawLoad(seen: nat) | Stored | SawMax(max: nat) | Trying(max: nat, expected: nat)

  /** `stored` holds every value the limit has had; `live` the permits not yet dropped. */
  datatype State = State(current: int, max: nat, stored: set<nat>, live: set<nat>, pcs: map<nat, Pc>)

  datatype Action =
    | LoadForUse(thread: nat, value: nat)
    | StoreMax(thread: nat, memory: nat)
    | LoadMax(thread: nat, value: nat)
    | LoadCurrent(thread: nat, value: nat)
    | GiveUp(thread: nat)
    | CasWins(thread: nat, permit: nat)
    | CasFails(thread: nat, value: nat)
    | DropPermit(permit: nat)

  function At(s: State, thread: nat): Pc {
    if thread in s.pcs then s.pcs[thread] else Idle
  }

  function Goto(s: State, thread: nat, pc: Pc): State {
    s.(pcs := s.pcs[thread := pc])
  }

  function Start(base: nat): State {
    State(0, base, {base}, {}, map[])
  }

  /** One atomic access, or None when the thread is not at that access. */
  function Apply(base: nat, s: State, a: Action): Option<State> {
    match a
    case LoadForUse(t, v) =>
      if At(s, t).Idle? then Some(Goto(s, t, SawLoad(v))) else None
    case StoreMax(t, memory) =>
      if At(s, t).SawLoad? then
        var m := DynamicLimit(base, At(s, t).seen, memory);
        Some(Goto(s, t, Stored).(max := m, stored := s.stored + {m}))
      else None
    case LoadMax(t, v) =>
      if At(s, t).Stored? && v in s.stored then Some(Goto(s, t, SawMax(v))) else None
    case LoadCurrent(t, v) =>
      if At(s, t).SawMax? then Some(Goto(s, t, Trying(At(s, t).max, v))) else None
    case GiveUp(t) =>
      if At(s, t).Trying? && At(s, t).expected >= At(s, t).max then Some(Goto(s, t, Idle)) else None
    case CasWins(t, p) =>
      if At(s, t).Trying? && At(s, t).expected < At(s, t).max && s.current == At(s, t).expected && p !in s.live
      then Some(Goto(s, t, Idle).(current := s.current + 1, live := s.live + {p}))
      else None
    case CasFails(t, v) =>
      if At(s, t).Trying? && At(s, t).expected < At(s, t).max
      then Some(Goto(s, t, Trying(At(s, t).max, v))) else None
    case DropPermit(p) =>
      if p in s.live then Some(s.(current := s.current - 1, live := s.live - {p})) else None
  }

  /** The state after an interleaving, or None if it is not one. */
  function Run(base: nat, actions: seq<Action>): Option<State> {
    if actions == [] then Some(Start(base))
    else
      match Run(base, actions[..|actions| - 1])
      case None => None
      case Some(s) => Apply(base, s, actions[|actions| - 1])
  }

  /** A limit some thread may be acting on. */
  ghost predicate LimitOk(base: nat, m: nat) {
    1 <= m <= base
  }

  ghost predicate Inv(base: nat, s: State) {
    && s.current == |s.live| <= base
    && LimitOk(base, s.max)
    && (forall m :: m in s.stored ==> LimitOk(base, m))
    && (forall t :: t in s.pcs && (s.pcs[t].SawMax? || s.pcs[t].Trying?) ==> LimitOk(base, s.pcs[t].max))
  }

  lemma ApplyKeepsInv(base: nat, s: State, a: Action)
    requires base >= 1 && Inv(base, s) && Apply(base, s, a).Some?
    ensures Inv(base, Apply(base, s, a).value)
  {
    LimitWithinBase(base);
    if a.StoreMax? {
      assert LimitOk(base, DynamicLimit(base, At(s, a.thread).seen, a.memory));
    }
  }

  /** In every interleaving the counter is the number of live permits and never exceeds the base. */
  lemma {:induction false} PermitsNeverExceedBase(base: nat, actions: seq<Action>)
    requires base >= 1 && Run(base, actions).Some?
    ensures var s := Run(base, actions).value;
            s.current == |s.live| <= base && 1 <= s.max <= base && Inv(base, s)
  {
    if actions != [] {
      PermitsNeverExceedBase(base, actions[..|actions| - 1]);
      ApplyKeepsInv(base, Run(base, actions[..|actions| - 1]).value, actions[|actions| - 1]);
    }
  }

  /** A thread whose last load is current gets a permit exactly below the limit it saw, and gives up otherwise. */
  lemma AcquiresIffBelowLimit(base: nat, s: State, t: nat, p: nat)
    requires At(s, t).Trying? && s.current == At(s, t).expected && p !in s.live
    ensures var won, gaveUp := Apply(base, s, CasWins(t, p)), Apply(base, s, GiveUp(t));
            && (won.Some? <==> s.current < At(s, t).max) && (gaveUp.Some? <==> s.current >= At(s, t).max)
            && (won.Some? ==> won.value.current == s.current + 1 && won.value.live == s.live + {p})
            && (gaveUp.Some? ==> gaveUp.value.current == s.current && gaveUp.value.live == s.live)
  {
  }

  // ---------------------------------------------------------------------------
  // Acquisitions one at a time
  // ---------------------------------------------------------------------------

  function Min(a: nat, b: nat): nat { if a < b then a else b }
  function Max(a: nat, b: nat): nat { if a < b then b else a }

  /** The most permits ever out when acquisitions do not overlap and memory is plentiful. */
  function SerialCap(base: nat): nat {
    Min(base, Max(4 * base / 5 + 1, 17 * base / 20))
  }

  /** No other thread is inside `try_acquire`, loads are exact, and at least 2 GB are free. */
  ghost predicate Serial(s: State, a: Action) {
    match a
    case LoadForUse(t, v) => v == s.current && forall u :: u in s.pcs ==> s.pcs[u].Idle?
    case StoreMax(_, memory) => memory >= 2 * GB
    case LoadMax(_, v) => v == s.max
    case LoadCurrent(_, v) => v == s.current
    case CasFails(_, v) => v == s.current
    case _ => true
  }

  ghost predicate SerialRun(base: nat, actions: seq<Action>) {
    actions == [] ||
    (var front := actions[..|actions| - 1];
     && SerialRun(base, front)
     && (Run(base, front).Some? ==> Serial(Run(base, front).value, actions[|actions| - 1])))
  }

  /** Acquiring under limit `m` cannot take the count past the cap. */
  ghost predicate Safe(base: nat, count: nat, m: nat) {
    count < m ==> count + 1 <= SerialCap(base)
  }

  ghost predicate SerialPc(base: nat, s: State, pc: Pc) {
    match pc
    case Idle => true
    case SawLoad(seen) => |s.live| <= seen
    case Stored => Safe(base, |s.live|, s.max)
    case SawMax(m) => Safe(base, |s.live|, m)
    case Trying(m, _) => Safe(base, |s.live|, m)
  }

  ghost predicate SerialInv(base: nat, s: State) {
    && s.current == |s.live| <= SerialCap(base)
    && (forall t, u :: t in s.pcs && u in s.pcs && !s.pcs[t].Idle? && !s.pcs[u].Idle? ==> t == u)
    && (forall t :: t in s.pcs ==> SerialPc(base, s, s.pcs[t]))
  }

  lemma StoredLimitIsSafe(base: nat, count: nat, seen: nat, memory: nat)
    requires base >= 1 && count <= seen && memory >= 2 * GB
    ensures Safe(base, count, DynamicLimit(base, seen, memory))
  {
  }

  lemma ApplyKeepsSerialInv(base: nat, s: State, a: Action)
    requires base >= 1 && SerialInv(base, s) && Serial(s, a) && Apply(base, s, a).Some?
    ensures SerialInv(base, Apply(base, s, a).value)
  {
    if a.StoreMax? {
      StoredLimitIsSafe(base, |s.live|, At(s, a.thread).seen, a.memory);
    } else if a.DropPermit? {
      assert |s.live - {a.permit}| == |s.live| - 1;
    }
  }

  /** Non-overlapping acquisitions stay within the cap, whatever drops interleave with them. */
  lemma {:induction false} SerialPermitsWithinCap(base: nat, actions: seq<Action>)
    requires base >= 1 && SerialRun(base, actions) && Run(base, actions).Some?
    ensures |Run(base, actions).value.live| <= SerialCap(base) && SerialInv(base, Run(base, actions).value)
  {
    if actions != [] {
      SerialPermitsWithinCap(base, actions[..|actions| - 1]);
      ApplyKeepsSerialInv(base, Run(base, actions[..|actions| - 1]).value, actions[|actions| - 1]);
    }
  }

  lemma Extend(base: nat, front: seq<Action>, a: Action)
    requires SerialRun(base, front) && Run(base, front).Some?
    requires Serial(Run(base, front).value, a) && Apply(base, Run(base, front).value, a).Some?
    ensures SerialRun(base, front + [a]) && Run(base, front + [a]) == Apply(base, Run(base, front).value, a)
  {
    assert (front + [a])[..|front|] == front;
  }

  /** Nobody is inside `try_acquire`, and permits 0 to k - 1 are out. */
  ghost predicate Holding(s: State, k: nat) {
    && s.current == k && (forall p: nat :: p in s.live <==> p < k)
    && forall t :: t in s.pcs ==> s.pcs[t].Idle?
  }

  lemma LimitLeavesRoom(base: nat, k: nat)
    requires k < SerialCap(base)
    ensures k < DynamicLimit(base, k, 2 * GB)
  {
  }

  /** One whole acquisition by one thread. */
  lemma AcquireOnce(base: nat, front: seq<Action>, k: nat) returns (all: seq<Action>)
    requires SerialRun(base, front) && Run(base, front).Some? && Holding(Run(base, front).value, k)
    requires k < DynamicLimit(base, k, 2 * GB)
    ensures SerialRun(base, all) && Run(base, all).Some? && Holding(Run(base, all).value, k + 1)
  {
    var m := DynamicLimit(base, k, 2 * GB);
    hide SerialRun, Run, DynamicLimit;
    all := front;
    Extend(base, all, LoadForUse(0, k));
    all := all + [LoadForUse(0, k)];
    Extend(base, all, StoreMax(0, 2 * GB));
    all := all + [StoreMax(0, 2 * GB)];
    Extend(base, all, LoadMax(0, m));
    all := all + [LoadMax(0, m)];
    Extend(base, all, LoadCurrent(0, k));
    all := all + [LoadCurrent(0, k)];
    Extend(base, all, CasWins(0, k));
    all := all + [CasWins(0, k)];
  }

  /** The bound is exact: every count up to the cap is reached by acquiring one after another. */
  lemma {:induction false} SerialCapIsReached(base: nat, k: nat) returns (actions: seq<Action>)
    requires k <= SerialCap(base)
    ensures SerialRun(base, actions) && Run(base, actions).Some? && Holding(Run(base, actions).value, k)
  {
    actions := [];
    if k > 0 {
      var front := SerialCapIsReached(base, k - 1);
      LimitLeavesRoom(base, k - 1);
      actions := AcquireOnce(base, front, k - 1);
    }
  }

  /** So the configured maximum is out of reach exactly when it is 6 or more. */
  lemma ConfiguredMaximumUnreachable(base: nat)
    ensures SerialCap(base) < base <==> base >= 6
  {
  }
}
