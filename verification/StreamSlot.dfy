/**
 The per-session stream slot (crates/heramind-agent/src/session.rs): registering a cancel sender
 doubles as mutual exclusion, and a guard inside the stream frees the slot. Each step is one
 critical section on the sender map or one move of one stream; any number of streams interleave.
 */
module StreamSlot {
  import opened Basics

  /**
   Registered: the slot is taken, the stream not polled yet. Draining: ended naturally, waiting for
   the map lock. Pending: dropped early, its cleanup task spawned but not run. Failed and Abandoned
   streams never created a guard and leave the slot behind.
   */
  datatype Status = Registered | Streaming | Draining | Pending | Done | Rejected | Failed | Abandoned

  datatype Stream = Stream(session: string, status: Status)

  datatype State = State(slots: map<string, nat>, streams: map<nat, Stream>)

  datatype Action =
    | Register(id: nat, session: string)
    | CreationFails(id: nat)
    | DropUnpolled(id: nat)
    | Poll(id: nat)
    | NaturalEnd(id: nat)
    | RemoveInline(id: nat)
    | DropPolled(id: nat)
    | Cleanup(id: nat)
    | Cancel(session: string)

  function Move(s: State, id: nat, status: Status): State
    requires id in s.streams
  {
    s.(streams := s.streams[id := s.streams[id].(status := status)])
  }

  /** Remove the session's entry, whoever registered it, and finish the stream. */
  function Free(s: State, id: nat): State
    requires id in s.streams
  {
    Move(s, id, Done).(slots := s.slots - {s.streams[id].session})
  }

  predicate Is(s: State, id: nat, status: Status) {
    id in s.streams && s.streams[id].status == status
  }

  function Apply(s: State, a: Action): Option<State> {
    match a
    case Register(id, x) =>
      if id in s.streams then None
      else if x in s.slots then Some(s.(streams := s.streams[id := Stream(x, Rejected)]))
      else Some(State(s.slots[x := id], s.streams[id := Stream(x, Registered)]))
    case CreationFails(id) => if Is(s, id, Registered) then Some(Move(s, id, Failed)) else None
    case DropUnpolled(id) => if Is(s, id, Registered) then Some(Move(s, id, Abandoned)) else None
    case Poll(id) => if Is(s, id, Registered) then Some(Move(s, id, Streaming)) else None
    case NaturalEnd(id) => if Is(s, id, Streaming) then Some(Move(s, id, Draining)) else None
    case RemoveInline(id) => if Is(s, id, Draining) then Some(Free(s, id)) else None
    case DropPolled(id) =>
      if Is(s, id, Streaming) || Is(s, id, Draining) then Some(Move(s, id, Pending)) else None
    case Cleanup(id) => if Is(s, id, Pending) then Some(Free(s, id)) else None
    case Cancel(x) => Some(s.(slots := s.slots - {x}))
  }

  function RunFrom(s: State, actions: seq<Action>): Option<State> {
    if actions == [] then Some(s)
    else
      match RunFrom(s, actions[..|actions| - 1])
      case None => None
      case Some(m) => Apply(m, actions[|actions| - 1])
  }

  const EMPTY: State := State(map[], map[])

  /** A stream that still counts on the slot. */
  predicate Holds(s: State, id: nat, x: string) {
    id in s.streams && s.streams[id].session == x && s.streams[id].status in {Registered, Streaming, Draining, Pending}
  }

  ghost predicate Good(s: State, x: string) {
    forall id {:trigger Holds(s, id, x)} :: Holds(s, id, x) ==> x in s.slots && s.slots[x] == id
  }

  /** No cancellation hits session `x` while some stream counts on its slot. */
  ghost predicate NoLiveCancel(s: State, actions: seq<Action>, x: string) {
    actions == [] ||
    (var front := actions[..|actions| - 1];
     && NoLiveCancel(s, front, x)
     && (actions[|actions| - 1] == Cancel(x) && RunFrom(s, front).Some? ==>
           forall id {:trigger Holds(RunFrom(s, front).value, id, x)} :: !Holds(RunFrom(s, front).value, id, x)))
  }

  lemma ApplyKeepsGood(s: State, a: Action, x: string)
    requires Good(s, x) && Apply(s, a).Some?
    requires a == Cancel(x) ==> forall id {:trigger Holds(s, id, x)} :: !Holds(s, id, x)
    ensures Good(Apply(s, a).value, x)
  {
    var s' := Apply(s, a).value;
    forall id {:trigger Holds(s', id, x)} | Holds(s', id, x) ensures x in s'.slots && s'.slots[x] == id {
      if Holds(s, id, x) {
        if a.RemoveInline? || a.Cleanup? {
          assert Holds(s, a.id, s.streams[a.id].session);
        }
      }
    }
  }

  lemma {:induction false} RunStaysGood(s: State, actions: seq<Action>, x: string)
    requires Good(s, x) && NoLiveCancel(s, actions, x) && RunFrom(s, actions).Some?
    ensures Good(RunFrom(s, actions).value, x)
  {
    if actions != [] {
      RunStaysGood(s, actions[..|actions| - 1], x);
      ApplyKeepsGood(RunFrom(s, actions[..|actions| - 1]).value, actions[|actions| - 1], x);
    }
  }

  /** Mutual exclusion: at most one stream at a time counts on a session's slot. */
  lemma AtMostOneHolder(actions: seq<Action>, x: string, i: nat, j: nat)
    requires NoLiveCancel(EMPTY, actions, x) && RunFrom(EMPTY, actions).Some?
    requires Holds(RunFrom(EMPTY, actions).value, i, x) && Holds(RunFrom(EMPTY, actions).value, j, x)
    ensures i == j
  {
    RunStaysGood(EMPTY, actions, x);
  }

  // ---------------------------------------------------------------------------
  // The slot is freed exactly once, by its owner
  // ---------------------------------------------------------------------------

  predicate FreesSlot(a: Action, id: nat) {
    a == RemoveInline(id) || a == Cleanup(id)
  }

  function FreeCount(actions: seq<Action>, id: nat): nat {
    if actions == [] then 0
    else FreeCount(actions[..|actions| - 1], id) + if FreesSlot(actions[|actions| - 1], id) then 1 else 0
  }

  /** In any run a stream frees once when it is done and never before; polled streams end no other way. */
  lemma {:induction false} FreedExactlyOnce(actions: seq<Action>, id: nat)
    requires RunFrom(EMPTY, actions).Some?
    ensures FreeCount(actions, id) == if Is(RunFrom(EMPTY, actions).value, id, Done) then 1 else 0
    ensures Poll(id) in actions ==>
              exists st :: st in {Streaming, Draining, Pending, Done} && Is(RunFrom(EMPTY, actions).value, id, st)
  {
    if actions != [] {
      var front := actions[..|actions| - 1];
      FreedExactlyOnce(front, id);
      assert actions == front + [actions[|actions| - 1]];
      var s, s' := RunFrom(EMPTY, front).value, RunFrom(EMPTY, actions).value;
      if Poll(id) in actions {
        assert id in s'.streams && Is(s', id, s'.streams[id].status);
      }
    }
  }

  /** The entry a stream removes is its own registration, and the next registration gets the slot. */
  lemma FreesItsOwnSlot(actions: seq<Action>, a: Action, id: nat, x: string)
    requires NoLiveCancel(EMPTY, actions, x) && RunFrom(EMPTY, actions).Some?
    requires FreesSlot(a, id) && Apply(RunFrom(EMPTY, actions).value, a).Some?
    requires RunFrom(EMPTY, actions).value.streams[id].session == x
    ensures var s := RunFrom(EMPTY, actions).value;
            x in s.slots && s.slots[x] == id && x !in Apply(s, a).value.slots
    ensures var next := Apply(RunFrom(EMPTY, actions).value, a).value;
            forall n {:trigger Register(n, x)} :: n !in next.streams ==> Is(Apply(next, Register(n, x)).value, n, Registered)
  {
    RunStaysGood(EMPTY, actions, x);
    assert Holds(RunFrom(EMPTY, actions).value, id, x);
  }

  // ---------------------------------------------------------------------------
  // Cancellation
  // ---------------------------------------------------------------------------

  ghost predicate TwoStreaming(s: State, x: string) {
    exists i, j {:trigger Is(s, i, Streaming), Is(s, j, Streaming)} ::
      i != j && Is(s, i, Streaming) && Is(s, j, Streaming) && s.streams[i].session == x == s.streams[j].session
  }

  ghost predicate NoCancel(actions: seq<Action>) {
    forall i :: 0 <= i < |actions| ==> !actions[i].Cancel?
  }

  lemma {:induction false} NoCancelIsNoLiveCancel(s: State, actions: seq<Action>, x: string)
    requires NoCancel(actions)
    ensures NoLiveCancel(s, actions, x)
  {
    if actions != [] { NoCancelIsNoLiveCancel(s, actions[..|actions| - 1], x); }
  }

  lemma RunStep(s: State, actions: seq<Action>, a: Action)
    ensures RunFrom(s, actions + [a])
         == match RunFrom(s, actions) case None => None case Some(m) => Apply(m, a)
  {
    assert (actions + [a])[..|actions|] == actions;
  }

  lemma RunFour(s: State, a: Action, b: Action, c: Action, d: Action)
    requires Apply(s, a).Some? && Apply(Apply(s, a).value, b).Some?
    ensures RunFrom(s, [a, b]) == Some(Apply(Apply(s, a).value, b).value)
    ensures var m := Apply(Apply(s, a).value, b).value;
            Apply(m, c).Some? ==>
              && RunFrom(s, [a, b, c]) == Apply(m, c)
              && RunFrom(s, [a, b, c, d]) == Apply(Apply(m, c).value, d)
  {
    assert [a] == [] + [a] && [a, b] == [a] + [b] && [a, b, c] == [a, b] + [c] && [a, b, c, d] == [a, b, c] + [d];
    RunStep(s, [], a);
    RunStep(s, [a], b);
    RunStep(s, [a, b], c);
    RunStep(s, [a, b, c], d);
  }

  lemma CancelWhileRunning(s: State, x: string, h: nat, n: nat) returns (after: seq<Action>)
    requires Holds(s, h, x) && n !in s.streams
    requires Is(s, h, Registered) || Is(s, h, Streaming)
    ensures NoCancel(after)
    ensures var end := RunFrom(Apply(s, Cancel(x)).value, after); end.Some? && TwoStreaming(end.value, x)
  {
    var s0 := Apply(s, Cancel(x)).value;
    RunFour(s0, Register(n, x), Poll(n), Poll(h), Poll(h));
    after := if Is(s, h, Registered) then [Register(n, x), Poll(n), Poll(h)] else [Register(n, x), Poll(n)];
    var end := RunFrom(s0, after).value;
    assert Is(end, n, Streaming) && Is(end, h, Streaming);
  }

  lemma CancelWhileFreeing(s: State, x: string, h: nat, n: nat, m: nat) returns (after: seq<Action>)
    requires Holds(s, h, x) && n !in s.streams && m !in s.streams && n != m
    requires Is(s, h, Draining) || Is(s, h, Pending)
    ensures NoCancel(after)
    ensures var end := RunFrom(Apply(s, Cancel(x)).value, after); end.Some? && TwoStreaming(end.value, x)
  {
    hide RunFrom;
    var s0 := Apply(s, Cancel(x)).value;
    var free := if Is(s, h, Draining) then RemoveInline(h) else Cleanup(h);
    var opening := [Register(n, x), Poll(n), free, Register(m, x)];
    RunFour(s0, Register(n, x), Poll(n), free, Register(m, x));
    after := opening + [Poll(m)];
    RunStep(s0, opening, Poll(m));
    var end := RunFrom(s0, after).value;
    assert Is(end, n, Streaming) && Is(end, m, Streaming);
  }

  /** Cancelling a slot that stream `h` counts on lets two streams of the session run at once. */
  lemma LiveCancelBreaksExclusion(s: State, x: string, h: nat, n: nat, m: nat) returns (after: seq<Action>)
    requires Holds(s, h, x) && n !in s.streams && m !in s.streams && n != m
    ensures NoCancel(after)
    ensures var end := RunFrom(Apply(s, Cancel(x)).value, after); end.Some? && TwoStreaming(end.value, x)
  {
    if Is(s, h, Registered) || Is(s, h, Streaming) {
      after := CancelWhileRunning(s, x, h, n);
    } else {
      after := CancelWhileFreeing(s, x, h, n, m);
    }
  }

  /**
   In a good state, cancelling session `x` is harmless -- no later run without cancellations has two
   streams of `x` running -- exactly when no stream counts on the slot.
   */
  lemma CancelHarmlessIff(s: State, x: string, n: nat, m: nat)
    requires Good(s, x) && n !in s.streams && m !in s.streams && n != m
    ensures (forall h {:trigger Holds(s, h, x)} :: !Holds(s, h, x)) <==>
            (forall after {:trigger RunFrom(Apply(s, Cancel(x)).value, after)} ::
               NoCancel(after) && RunFrom(Apply(s, Cancel(x)).value, after).Some? ==>
               !TwoStreaming(RunFrom(Apply(s, Cancel(x)).value, after).value, x))
  {
    var s0 := Apply(s, Cancel(x)).value;
    if forall h {:trigger Holds(s, h, x)} :: !Holds(s, h, x) {
      ApplyKeepsGood(s, Cancel(x), x);
      forall after | NoCancel(after) && RunFrom(s0, after).Some?
        ensures !TwoStreaming(RunFrom(s0, after).value, x)
      {
        NoCancelIsNoLiveCancel(s0, after, x);
        RunStaysGood(s0, after, x);
        OneStreaming(RunFrom(s0, after).value, x);
      }
    } else {
      var h :| Holds(s, h, x);
      var after := LiveCancelBreaksExclusion(s, x, h, n, m);
      assert RunFrom(s0, after).Some?;
    }
  }

  lemma OneStreaming(s: State, x: string)
    requires Good(s, x)
    ensures !TwoStreaming(s, x)
  {
    forall i, j | Is(s, i, Streaming) && Is(s, j, Streaming) && s.streams[i].session == x == s.streams[j].session
      ensures i == j
    {
      assert Holds(s, i, x) && Holds(s, j, x);
    }
  }

  // ---------------------------------------------------------------------------
  // Slots left behind
  // ---------------------------------------------------------------------------

  /** The slot of `x` belongs to a stream that failed to start or was never polled. */
  ghost predicate LeftBehind(s: State, x: string, id: nat) {
    && Good(s, x) && x in s.slots && s.slots[x] == id
    && id in s.streams && s.streams[id].session == x && s.streams[id].status in {Failed, Abandoned}
  }

  lemma ApplyKeepsLeftBehind(s: State, a: Action, x: string, id: nat)
    requires LeftBehind(s, x, id) && a != Cancel(x) && Apply(s, a).Some?
    ensures LeftBehind(Apply(s, a).value, x, id)
  {
    ApplyKeepsGood(s, a, x);
    if a.RemoveInline? || a.Cleanup? {
      assert Holds(s, a.id, s.streams[a.id].session);
    }
  }

  /** Such a slot stays taken in every continuation that does not cancel the session. */
  lemma {:induction false} LeftBehindStays(s: State, actions: seq<Action>, x: string, id: nat)
    requires LeftBehind(s, x, id) && Cancel(x) !in actions && RunFrom(s, actions).Some?
    ensures LeftBehind(RunFrom(s, actions).value, x, id)
  {
    if actions != [] {
      LeftBehindStays(s, actions[..|actions| - 1], x, id);
      ApplyKeepsLeftBehind(RunFrom(s, actions[..|actions| - 1]).value, actions[|actions| - 1], x, id);
    }
  }

  /**
   However the run goes on, until somebody cancels the session no stream of it ever counts on the
   slot again: every registration is rejected. A cancellation reopens the slot.
   */
  lemma LeftBehindBlocksSession(s: State, actions: seq<Action>, x: string, id: nat, n: nat)
    requires LeftBehind(s, x, id) && Cancel(x) !in actions && RunFrom(s, actions).Some?
    requires n !in RunFrom(s, actions).value.streams
    ensures var end := RunFrom(s, actions).value;
            && (forall h {:trigger Holds(end, h, x)} :: !Holds(end, h, x))
            && Is(Apply(end, Register(n, x)).value, n, Rejected)
            && Is(Apply(Apply(end, Cancel(x)).value, Register(n, x)).value, n, Registered)
  {
    LeftBehindStays(s, actions, x, id);
  }

  /** A stream that holds the slot leaves it behind by failing to start or by being dropped unpolled. */
  lemma UnstartedStreamLeavesSlot(actions: seq<Action>, a: Action, id: nat, x: string)
    requires NoLiveCancel(EMPTY, actions, x) && RunFrom(EMPTY, actions).Some?
    requires Is(RunFrom(EMPTY, actions).value, id, Registered)
    requires RunFrom(EMPTY, actions).value.streams[id].session == x
    requires a == CreationFails(id) || a == DropUnpolled(id)
    ensures var next := Apply(RunFrom(EMPTY, actions).value, a); next.Some? && LeftBehind(next.value, x, id)
  {
    RunStaysGood(EMPTY, actions, x);
    var s := RunFrom(EMPTY, actions).value;
    assert Holds(s, id, x);
    ApplyKeepsGood(s, a, x);
  }
}
