/**
 Concurrent `get_session` with double-checked restore (crates/heramind-agent/src/session.rs).
 Each step is one lock acquisition or one database access; any number of callers interleave,
 and sessions are not removed.
 */
module SessionRestore {
  import opened Basics

  /** `won` marks the caller whose agent was inserted; it still has to store the loaded messages. */
  datatype Phase =
    | Entered | Missed | Built(agent: nat, history: seq<string>) | Inserted(agent: nat, history: seq<string>)
    | Returned(agent: nat, won: bool) | NotFound

  datatype Caller = Caller(session: string, phase: Phase)

  /** `stored` is the database: the persisted sessions and their histories. */
  datatype State = State(stored: map<string, seq<string>>, sessions: map<string, nat>,
                         messages: map<string, seq<string>>, callers: map<nat, Caller>)

  datatype Action =
    | Enter(caller: nat, session: string)
    | ReadCache(caller: nat)
    | Restore(caller: nat, agent: nat)
    | RefuseUnknown(caller: nat)
    | Publish(caller: nat)
    | StoreMessages(caller: nat)

  predicate In(s: State, c: nat, p: Phase) {
    c in s.callers && s.callers[c].phase == p
  }

  function Move(s: State, c: nat, p: Phase): State
    requires c in s.callers
  {
    s.(callers := s.callers[c := s.callers[c].(phase := p)])
  }

  function Apply(s: State, a: Action): Option<State> {
    match a
    case Enter(c, x) => if c in s.callers then None else Some(s.(callers := s.callers[c := Caller(x, Entered)]))
    case ReadCache(c) =>
      if !In(s, c, Entered) then None
      else
        var x := s.callers[c].session;
        Some(Move(s, c, if x in s.sessions then Returned(s.sessions[x], false) else Missed))
    case Restore(c, agent) =>
      if In(s, c, Missed) && s.callers[c].session in s.stored
      then Some(Move(s, c, Built(agent, s.stored[s.callers[c].session]))) else None
    case RefuseUnknown(c) =>
      if In(s, c, Missed) && s.callers[c].session !in s.stored then Some(Move(s, c, NotFound)) else None
    case Publish(c) =>
      if c !in s.callers || !s.callers[c].phase.Built? then None
      else
        var x, built := s.callers[c].session, s.callers[c].phase;
        if x in s.sessions then Some(Move(s, c, Returned(s.sessions[x], false)))
        else Some(Move(s, c, Inserted(built.agent, built.history)).(sessions := s.sessions[x := built.agent]))
    case StoreMessages(c) =>
      if c !in s.callers || !s.callers[c].phase.Inserted? then None
      else
        var x, built := s.callers[c].session, s.callers[c].phase;
        Some(Move(s, c, Returned(built.agent, true)).(messages := s.messages[x := built.history]))
  }

  function RunFrom(s: State, actions: seq<Action>): Option<State> {
    if actions == [] then Some(s)
    else
      match RunFrom(s, actions[..|actions| - 1])
      case None => None
      case Some(m) => Apply(m, actions[|actions| - 1])
  }

  /** A caller that holds an agent, or is about to. */
  ghost predicate Settled(c: Caller) {
    c.phase.Inserted? || c.phase.Returned?
  }

  ghost predicate Winner(c: Caller) {
    c.phase.Inserted? || (c.phase.Returned? && c.phase.won)
  }

  /** Two winners of the same session. */
  ghost predicate Rivals(c: Caller, d: Caller) {
    Winner(c) && Winner(d) && c.session == d.session
  }

  ghost predicate OneAgent(s: State) {
    && (forall c :: c in s.callers && Settled(s.callers[c]) ==>
          var x := s.callers[c].session; x in s.sessions && s.sessions[x] == s.callers[c].phase.agent)
    && (forall c, d :: c in s.callers && d in s.callers && Rivals(s.callers[c], s.callers[d]) ==> c == d)
  }

  /** What a caller carries or left behind is the persisted history; only unknown sessions are not found. */
  ghost predicate LoadedRight(s: State, c: Caller) {
    && (c.phase.Built? || c.phase.Inserted? ==> c.session in s.stored && c.phase.history == s.stored[c.session])
    && (c.phase.NotFound? ==> c.session !in s.stored)
    && (c.phase.Returned? && c.phase.won ==>
          && c.session in s.stored && c.session in s.messages && s.messages[c.session] == s.stored[c.session])
  }

  ghost predicate Inv(s: State) {
    OneAgent(s) && forall c :: c in s.callers ==> LoadedRight(s, s.callers[c])
  }

  ghost predicate Extends(s: State, t: State) {
    s.stored == t.stored && forall x :: x in s.sessions ==> x in t.sessions && t.sessions[x] == s.sessions[x]
  }

  lemma ApplyKeepsOneAgent(s: State, a: Action)
    requires OneAgent(s) && Apply(s, a).Some?
    ensures OneAgent(Apply(s, a).value) && Extends(s, Apply(s, a).value)
  {
  }

  lemma ApplyKeepsLoaded(s: State, a: Action, c: nat)
    requires forall d :: d in s.callers ==> LoadedRight(s, s.callers[d])
    requires Apply(s, a).Some? && c in Apply(s, a).value.callers
    ensures LoadedRight(Apply(s, a).value, Apply(s, a).value.callers[c])
  {
  }

  lemma ApplyKeepsInv(s: State, a: Action)
    requires Inv(s) && Apply(s, a).Some?
    ensures Inv(Apply(s, a).value) && Extends(s, Apply(s, a).value)
  {
    hide Apply, OneAgent, LoadedRight;
    ApplyKeepsOneAgent(s, a);
    forall c | c in Apply(s, a).value.callers
      ensures LoadedRight(Apply(s, a).value, Apply(s, a).value.callers[c])
    {
      ApplyKeepsLoaded(s, a, c);
    }
  }

  lemma {:induction false} RunKeepsInv(s: State, actions: seq<Action>)
    requires Inv(s) && RunFrom(s, actions).Some?
    ensures Inv(RunFrom(s, actions).value) && Extends(s, RunFrom(s, actions).value)
  {
    if actions != [] {
      RunKeepsInv(s, actions[..|actions| - 1]);
      ApplyKeepsInv(RunFrom(s, actions[..|actions| - 1]).value, actions[|actions| - 1]);
    }
  }

  /** No session loaded, these ones persisted. */
  function Start(stored: map<string, seq<string>>): State {
    State(stored, map[], map[], map[])
  }

  ghost predicate Gets(s: State, c: nat, x: string, agent: nat) {
    c in s.callers && s.callers[c].session == x && s.callers[c].phase.Returned? && s.callers[c].phase.agent == agent
  }

  /**
   All callers of a session get one and the same agent; it is the agent in the map, and after any
   further steps it still is, so no caller ever holds a discarded duplicate.
   */
  lemma AllCallersShareOneAgent(stored: map<string, seq<string>>, actions: seq<Action>, more: seq<Action>, x: string, c: nat, a: nat, d: nat, b: nat)
    requires RunFrom(Start(stored), actions).Some? && RunFrom(RunFrom(Start(stored), actions).value, more).Some?
    requires Gets(RunFrom(Start(stored), actions).value, c, x, a)
    requires Gets(RunFrom(RunFrom(Start(stored), actions).value, more).value, d, x, b)
    ensures a == b
    ensures var later := RunFrom(RunFrom(Start(stored), actions).value, more).value;
            x in later.sessions && later.sessions[x] == a
  {
    RunKeepsInv(Start(stored), actions);
    RunKeepsInv(RunFrom(Start(stored), actions).value, more);
  }

  /** Only one caller per session ever inserts its agent and stores the loaded messages. */
  lemma OneWinnerPerSession(stored: map<string, seq<string>>, actions: seq<Action>, c: nat, d: nat)
    requires RunFrom(Start(stored), actions).Some?
    requires var s := RunFrom(Start(stored), actions).value;
             c in s.callers && d in s.callers && Rivals(s.callers[c], s.callers[d])
    ensures c == d
  {
    RunKeepsInv(Start(stored), actions);
  }

  /** A caller of a persisted session is never told that it does not exist; of any other it never gets an agent. */
  lemma FoundIffPersisted(stored: map<string, seq<string>>, actions: seq<Action>, c: nat)
    requires RunFrom(Start(stored), actions).Some?
    requires c in RunFrom(Start(stored), actions).value.callers
    ensures var caller := RunFrom(Start(stored), actions).value.callers[c];
            && (caller.phase.NotFound? ==> caller.session !in stored)
            && (Settled(caller) ==> caller.session in stored)
  {
    RunKeepsInv(Start(stored), actions);
    LoadedArePersisted(stored, actions);
  }

  /** Only persisted sessions are ever loaded. */
  lemma {:induction false} LoadedArePersisted(stored: map<string, seq<string>>, actions: seq<Action>)
    requires RunFrom(Start(stored), actions).Some?
    ensures forall x :: x in RunFrom(Start(stored), actions).value.sessions ==> x in stored
  {
    if actions != [] {
      var front := actions[..|actions| - 1];
      LoadedArePersisted(stored, front);
      RunKeepsInv(Start(stored), front);
    }
  }

  /** Once the caller that inserted its agent has returned, the session's messages are the persisted history. */
  lemma WinnerStoresHistory(stored: map<string, seq<string>>, actions: seq<Action>, c: nat)
    requires RunFrom(Start(stored), actions).Some?
    requires var s := RunFrom(Start(stored), actions).value;
             c in s.callers && s.callers[c].phase.Returned? && s.callers[c].phase.won
    ensures var s := RunFrom(Start(stored), actions).value;
            var x := s.callers[c].session;
            && x in stored && x in s.messages && s.messages[x] == stored[x]
            && x in s.sessions && s.sessions[x] == s.callers[c].phase.agent
  {
    RunKeepsInv(Start(stored), actions);
  }

  /** A single undisturbed caller of a persisted session restores it: it gets its own agent. */
  lemma LoneCallerRestores(stored: map<string, seq<string>>, x: string, c: nat, agent: nat)
    requires x in stored
    ensures var run := RunFrom(Start(stored), [Enter(c, x), ReadCache(c), Restore(c, agent), Publish(c), StoreMessages(c)]);
            run.Some? && Gets(run.value, c, x, agent)
  {
    var all := [Enter(c, x), ReadCache(c), Restore(c, agent), Publish(c), StoreMessages(c)];
    assert all[..4][..3] == all[..3] && all[..3][..2] == all[..2] && all[..2][..1] == all[..1] && all[..1][..0] == [];
    assert RunFrom(Start(stored), all[..1]) == Apply(Start(stored), Enter(c, x));
    assert RunFrom(Start(stored), all[..2]) == Apply(RunFrom(Start(stored), all[..1]).value, ReadCache(c));
    assert RunFrom(Start(stored), all[..3]) == Apply(RunFrom(Start(stored), all[..2]).value, Restore(c, agent));
    assert RunFrom(Start(stored), all[..4]) == Apply(RunFrom(Start(stored), all[..3]).value, Publish(c));
  }
}
