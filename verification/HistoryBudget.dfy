/**
 Token budgeting and truncation of the conversation history in `chat_stream_internal`
 (crates/heramind-agent/src/llm.rs). Token counts are arbitrary naturals.
 */
module HistoryBudget {
  import opened Basics

  datatype Role = System | User | Assistant | Tool

  datatype Message = Message(role: Role, text: string, tokens: nat)

  datatype ToolDef = ToolDef(name: string, tokens: nat)

  /** Everything a prompt is sized from, apart from the history itself. */
  datatype Request = Request(maxContext: nat, thinking: bool, systemTokens: nat, userTokens: nat,
                             tools: seq<ToolDef>, includeTools: bool)

  // ---------------------------------------------------------------------------
  // The budget
  // ---------------------------------------------------------------------------

  function PromptRatio(r: Request): nat {
    if r.thinking then
      if r.maxContext < 8192 then 45 else if r.maxContext < 16384 then 55 else 65
    else if r.maxContext < 8192 then 50
    else if r.maxContext < 16384 then 60
    else 70
  }

  function PromptBudget(r: Request): nat {
    r.maxContext * PromptRatio(r) / 100
  }

  /** `should_use_compact_tool_prompt`, on the rough budget that `chat_stream_internal` feeds it. */
  function Compact(maxContext: nat): bool {
    var rough := if maxContext <= 8192 then maxContext * 75 / 100
                 else if maxContext < 16384 then maxContext * 60 / 100
                 else maxContext * 70 / 100;
    maxContext <= 8192 || rough < 6000
  }

  /** The budget by class of context: 50, 60 or 70 percent, and five points less for a thinking model. */
  lemma BudgetByClass(r: Request)
    ensures var percent := 50 + (if r.maxContext >= 8192 then 10 else 0) + (if r.maxContext >= 16384 then 10 else 0)
                           - (if r.thinking then 5 else 0);
            PromptBudget(r) * 100 <= r.maxContext * percent < PromptBudget(r) * 100 + 100
  {
  }

  /** Tokens of the tool definitions that are sent: only `shell` in compact mode. */
  function SentTools(r: Request): nat {
    ToolTokens(r.tools, Compact(r.maxContext))
  }

  function ToolTokens(tools: seq<ToolDef>, compact: bool): nat {
    if tools == [] then 0
    else
      var t := tools[|tools| - 1];
      ToolTokens(tools[..|tools| - 1], compact) + if !compact || t.name == "shell" then t.tokens else 0
  }

  /** Each tool definition counts, wherever it stands, except in compact mode those that are not `shell`. */
  lemma {:induction false} ToolCounts(a: seq<ToolDef>, t: ToolDef, b: seq<ToolDef>, compact: bool)
    ensures ToolTokens(a + [t] + b, compact)
         == ToolTokens(a + b, compact) + if compact && t.name != "shell" then 0 else t.tokens
    ensures ToolTokens([], compact) == 0
  {
    if b == [] {
      assert a + [t] + b == a + [t] && a + b == a && (a + [t])[..|a|] == a;
    } else {
      var m := |b| - 1;
      ToolCounts(a, t, b[..m], compact);
      assert (a + [t] + b)[..|a| + 1 + m] == a + [t] + b[..m] && (a + b)[..|a| + m] == a + b[..m];
    }
  }

  /** What `compute_history_budget` sets aside besides the history. */
  function Reserved(r: Request, messages: nat): nat {
    r.systemTokens + r.userTokens + (if r.includeTools then SentTools(r) else 0)
    + 10 * (messages + 2) + 200
  }

  function Available(r: Request, messages: nat): nat {
    if Reserved(r, messages) < PromptBudget(r) then PromptBudget(r) - Reserved(r, messages) else 0
  }

  // ---------------------------------------------------------------------------
  // The messages kept
  // ---------------------------------------------------------------------------

  function NonSystem(ms: seq<Message>): seq<Message> {
    if ms == [] then []
    else
      var front, m := NonSystem(ms[..|ms| - 1]), ms[|ms| - 1];
      if m.role != System then front + [m] else front
  }

  /** The history is filtered by role alone: every message that is not the system's, at its place in the order. */
  lemma {:induction false} NonSystemKeeps(ms: seq<Message>) returns (at: seq<nat>)
    ensures |at| == |NonSystem(ms)|
    ensures forall i, j :: 0 <= i < j < |at| ==> at[i] < at[j]
    ensures forall i :: 0 <= i < |at| ==> at[i] < |ms| && NonSystem(ms)[i] == ms[at[i]]
    ensures forall k :: 0 <= k < |ms| ==> (k in at <==> ms[k].role != System)
  {
    at := [];
    if ms != [] {
      var m := |ms| - 1;
      var before := NonSystemKeeps(ms[..m]);
      assert forall k :: 0 <= k < m ==> ms[..m][k] == ms[k];
      assert forall k :: k in before ==> k < m;
      if ms[m].role == System {
        at := before;
      } else {
        at := before + [m];
        assert forall k :: k in at <==> k in before || k == m;
      }
    }
  }

  function TokensOf(ms: seq<Message>): nat {
    if ms == [] then 0 else TokensOf(ms[..|ms| - 1]) + ms[|ms| - 1].tokens
  }

  function FirstUser(h: seq<Message>, from: nat): (p: Option<nat>)
    requires from <= |h|
    ensures p.Some? ==> from <= p.value < |h|
    decreases |h| - from
  {
    if from == |h| then None else if h[from].role == User then Some(from) else FirstUser(h, from + 1)
  }

  /** The opening user message of a history short enough to be one task. */
  function Pinned(h: seq<Message>): (p: Option<nat>)
    ensures p.Some? ==> p.value < |h|
  {
    if |h| <= 12 then FirstUser(h, 0) else None
  }

  function PinCost(h: seq<Message>): nat {
    match Pinned(h)
    case None => 0
    case Some(p) => h[p].tokens
  }

  /** Positions `s, s + 1, ..` of the history, without the pinned one. */
  function Tail(n: nat, s: nat, pin: Option<nat>): seq<nat>
    requires s <= n
    decreases n - s
  {
    if s == n then [] else if pin == Some(s) then Tail(n, s + 1, pin) else [s] + Tail(n, s + 1, pin)
  }

  /** Tokens of the messages in that tail. */
  function TailCost(h: seq<Message>, s: nat, pin: Option<nat>): nat
    requires s <= |h|
    decreases |h| - s
  {
    if s == |h| then 0 else (if pin == Some(s) then 0 else h[s].tokens) + TailCost(h, s + 1, pin)
  }

  /** Going back from position `s`, the earliest position whose tail still fits. */
  function Earliest(h: seq<Message>, s: nat, pin: Option<nat>, budget: nat): (e: nat)
    requires s <= |h|
    ensures e <= s
  {
    if s == 0 || TailCost(h, s - 1, pin) > budget then s else Earliest(h, s - 1, pin, budget)
  }

  function OthersBudget(h: seq<Message>, available: nat): nat {
    if PinCost(h) < available then available - PinCost(h) else 0
  }

  /** Positions kept when the history does not fit: the pinned one, then the longest tail that fits. */
  function TruncatedPositions(h: seq<Message>, available: nat): seq<nat> {
    var pin := Pinned(h);
    (if pin.Some? then [pin.value] else []) +
    Tail(|h|, Earliest(h, |h|, pin, OthersBudget(h, available)), pin)
  }

  function Positions(h: seq<Message>, available: nat): seq<nat> {
    if TokensOf(h) <= available then Tail(|h|, 0, None) else TruncatedPositions(h, available)
  }

  function Pick(h: seq<Message>, positions: seq<nat>): (ms: seq<Message>)
    requires forall i :: 0 <= i < |positions| ==> positions[i] < |h|
    ensures |ms| == |positions| && forall i :: 0 <= i < |positions| ==> ms[i] == h[positions[i]]
  {
    seq(|positions|, i requires 0 <= i < |positions| => h[positions[i]])
  }

  // ---------------------------------------------------------------------------
  // The kept tail is the longest one that fits
  // ---------------------------------------------------------------------------

  lemma {:induction false} TailCostGrows(h: seq<Message>, s: nat, t: nat, pin: Option<nat>)
    requires s <= t <= |h|
    ensures TailCost(h, t, pin) <= TailCost(h, s, pin)
    decreases t - s
  {
    if s < t { TailCostGrows(h, s + 1, t, pin); }
  }

  lemma {:induction false} EarliestFits(h: seq<Message>, s: nat, pin: Option<nat>, budget: nat)
    requires s <= |h| && TailCost(h, s, pin) <= budget
    ensures var e := Earliest(h, s, pin, budget);
            TailCost(h, e, pin) <= budget && (e == 0 || TailCost(h, e - 1, pin) > budget)
  {
    if s > 0 && TailCost(h, s - 1, pin) <= budget { EarliestFits(h, s - 1, pin, budget); }
  }

  /** A tail fits the budget exactly when it starts no earlier than the one that is kept. */
  lemma KeptTailIsLongest(h: seq<Message>, pin: Option<nat>, budget: nat, s: nat)
    requires s <= |h|
    ensures TailCost(h, s, pin) <= budget <==> s >= Earliest(h, |h|, pin, budget)
  {
    var e := Earliest(h, |h|, pin, budget);
    EarliestFits(h, |h|, pin, budget);
    if s >= e {
      TailCostGrows(h, e, s, pin);
    } else {
      TailCostGrows(h, s, e - 1, pin);
    }
  }

  // ---------------------------------------------------------------------------
  // Each message once, and in order
  // ---------------------------------------------------------------------------

  ghost predicate Increasing(xs: seq<nat>) {
    forall i, j :: 0 <= i < j < |xs| ==> xs[i] < xs[j]
  }

  lemma {:induction false} TailShape(n: nat, s: nat, pin: Option<nat>)
    requires s <= n
    ensures var tail := Tail(n, s, pin);
            Increasing(tail) && forall j :: 0 <= j < |tail| ==> s <= tail[j] < n && pin != Some(tail[j])
    decreases n - s
  {
    if s < n { TailShape(n, s + 1, pin); }
  }

  lemma {:induction false} InTail(n: nat, s: nat, pin: Option<nat>, i: nat) returns (j: nat)
    requires s <= i < n && pin != Some(i)
    ensures j < |Tail(n, s, pin)| && Tail(n, s, pin)[j] == i
    decreases n - s
  {
    if s == i {
      j := 0;
    } else {
      j := InTail(n, s + 1, pin, i);
      if pin != Some(s) { j := j + 1; }
    }
  }

  /** Putting the pinned position first keeps the order exactly when the tail starts at it or after. */
  lemma PinThenTail(n: nat, p: nat, e: nat)
    requires p < n && e <= n
    ensures Increasing([p] + Tail(n, e, Some(p))) <==> p == 0 || p - 1 < e
  {
    var tail := Tail(n, e, Some(p));
    var ps := [p] + tail;
    TailShape(n, e, Some(p));
    if p == 0 || p - 1 < e {
      forall i, j | 0 <= i < j < |ps| ensures ps[i] < ps[j] {
        assert ps[j] == tail[j - 1] && p != tail[j - 1];
      }
    } else {
      var j := InTail(n, e, Some(p), p - 1);
      assert ps[0] == p && ps[j + 1] == p - 1;
    }
  }

  lemma {:induction false} FirstUserIsFirst(h: seq<Message>, from: nat)
    requires from <= |h|
    ensures match FirstUser(h, from)
            case None => forall i :: from <= i < |h| ==> h[i].role != User
            case Some(p) => from <= p < |h| && h[p].role == User && forall i :: from <= i < p ==> h[i].role != User
    decreases |h| - from
  {
    if from < |h| { FirstUserIsFirst(h, from + 1); }
  }

  /** The user message that opens a history. */
  ghost predicate IsFirstUser(h: seq<Message>, p: int) {
    0 <= p < |h| && h[p].role == User && forall i :: 0 <= i < p ==> h[i].role != User
  }

  /** No message is kept twice, and a history of at most 12 messages keeps its first user message. */
  lemma EachKeptOnce(h: seq<Message>, available: nat)
    ensures var ps := Positions(h, available);
            && (forall i :: 0 <= i < |ps| ==> ps[i] < |h|)
            && (forall i, j :: 0 <= i < j < |ps| ==> ps[i] != ps[j])
            && (forall p :: |h| <= 12 && IsFirstUser(h, p) ==> exists i :: 0 <= i < |ps| && ps[i] == p)
  {
    FirstUserIsFirst(h, 0);
    assert forall p :: |h| <= 12 && IsFirstUser(h, p) ==> Pinned(h) == Some(p);
    var pin, ps := Pinned(h), Positions(h, available);
    if TokensOf(h) <= available {
      TailShape(|h|, 0, None);
      if pin.Some? {
        var j := InTail(|h|, 0, None, pin.value);
      }
    } else {
      var e := Earliest(h, |h|, pin, OthersBudget(h, available));
      var tail := Tail(|h|, e, pin);
      TailShape(|h|, e, pin);
      if pin.Some? {
        assert ps == [pin.value] + tail && ps[0] == pin.value;
        forall i, j | 0 <= i < j < |ps| ensures ps[i] != ps[j] {
          assert ps[j] == tail[j - 1] && (i > 0 ==> ps[i] == tail[i - 1]);
        }
      } else {
        assert ps == tail;
      }
    }
  }

  /**
   A truncated history is in conversation order exactly when nothing before the pinned message
   is kept: it is the first message, or the messages from its predecessor on do not fit.
   */
  lemma OrderKeptIff(h: seq<Message>, available: nat)
    requires TokensOf(h) > available
    ensures Increasing(Positions(h, available))
       <==> match Pinned(h)
            case None => true
            case Some(p) => p == 0 || TailCost(h, p - 1, Pinned(h)) > OthersBudget(h, available)
  {
    var pin, budget := Pinned(h), OthersBudget(h, available);
    var e := Earliest(h, |h|, pin, budget);
    if pin.Some? {
      PinThenTail(|h|, pin.value, e);
      assert Positions(h, available) == [pin.value] + Tail(|h|, e, pin);
      if pin.value > 0 {
        KeptTailIsLongest(h, pin, budget, pin.value - 1);
      }
    } else {
      TailShape(|h|, e, pin);
      assert Positions(h, available) == Tail(|h|, e, pin);
    }
  }

  /** Whether position `i` survives: everything if it all fits, else the pin and what fits beside it. */
  ghost predicate Survives(h: seq<Message>, available: nat, i: nat)
    requires i < |h|
  {
    || TokensOf(h) <= available
    || (|h| <= 12 && IsFirstUser(h, i))
    || (if exists p :: |h| <= 12 && IsFirstUser(h, p) then
          var p :| |h| <= 12 && IsFirstUser(h, p);
          TokensOf(h[i..]) - (if i <= p then h[p].tokens else 0)
          <= if h[p].tokens < available then available - h[p].tokens else 0
        else TokensOf(h[i..]) <= available)
  }

  lemma {:induction false} TailCostIs(h: seq<Message>, s: nat, pin: Option<nat>)
    requires s <= |h| && (pin.Some? ==> pin.value < |h|)
    ensures TailCost(h, s, pin) == TokensOf(h[s..]) - if pin.Some? && s <= pin.value then h[pin.value].tokens else 0
    decreases |h| - s
  {
    if s < |h| {
      TailCostIs(h, s + 1, pin);
      assert h[s..] == [h[s]] + h[s + 1..];
      TokensOfAppend([h[s]], h[s + 1..]);
      assert [h[s]][..0] == [];
    }
  }

  lemma InTailIff(n: nat, s: nat, pin: Option<nat>, i: nat)
    requires s <= n && i < n
    ensures i in Tail(n, s, pin) <==> s <= i && pin != Some(i)
  {
    TailShape(n, s, pin);
    if s <= i && pin != Some(i) {
      var j := InTail(n, s, pin, i);
    }
  }

  lemma PinnedIff(h: seq<Message>, p: nat)
    ensures Pinned(h) == Some(p) <==> |h| <= 12 && IsFirstUser(h, p)
  {
    FirstUserIsFirst(h, 0);
  }

  /** Exactly which positions are kept, by the tokens from there on. */
  lemma KeptIff(h: seq<Message>, available: nat, i: nat)
    requires i < |h|
    ensures i in Positions(h, available) <==> Survives(h, available, i)
  {
    var pin, budget := Pinned(h), OthersBudget(h, available);
    var e := Earliest(h, |h|, pin, budget);
    PinnedIff(h, i);
    if pin.Some? {
      PinnedIff(h, pin.value);
      forall p | |h| <= 12 && IsFirstUser(h, p) ensures p == pin.value { PinnedIff(h, p); }
    } else {
      forall p ensures !(|h| <= 12 && IsFirstUser(h, p)) {
        if |h| <= 12 && IsFirstUser(h, p) { PinnedIff(h, p); }
      }
    }
    InTailIff(|h|, 0, None, i);
    InTailIff(|h|, e, pin, i);
    KeptTailIsLongest(h, pin, budget, i);
    TailCostIs(h, i, pin);
  }

  // ---------------------------------------------------------------------------
  // The whole prompt
  // ---------------------------------------------------------------------------

  lemma {:induction false} TokensOfAppend(xs: seq<Message>, ys: seq<Message>)
    ensures TokensOf(xs + ys) == TokensOf(xs) + TokensOf(ys)
  {
    if ys == [] {
      assert xs + ys == xs;
    } else {
      TokensOfAppend(xs, ys[..|ys| - 1]);
      assert (xs + ys)[..|xs + ys| - 1] == xs + ys[..|ys| - 1];
    }
  }

  lemma PickCons(h: seq<Message>, p: nat, rest: seq<nat>)
    requires p < |h| && forall i :: 0 <= i < |rest| ==> rest[i] < |h|
    ensures Pick(h, [p] + rest) == [h[p]] + Pick(h, rest)
    ensures TokensOf(Pick(h, [p] + rest)) == h[p].tokens + TokensOf(Pick(h, rest))
  {
    assert Pick(h, [p] + rest) == [h[p]] + Pick(h, rest);
    TokensOfAppend([h[p]], Pick(h, rest));
    assert [h[p]][..0] == [];
  }

  lemma {:induction false} TailTokens(h: seq<Message>, s: nat, pin: Option<nat>)
    requires s <= |h|
    ensures (forall i :: 0 <= i < |Tail(|h|, s, pin)| ==> Tail(|h|, s, pin)[i] < |h|)
         && TokensOf(Pick(h, Tail(|h|, s, pin))) == TailCost(h, s, pin)
    decreases |h| - s
  {
    if s < |h| {
      TailTokens(h, s + 1, pin);
      if pin != Some(s) {
        PickCons(h, s, Tail(|h|, s + 1, pin));
      }
    }
  }

  /** The history messages that go into the prompt. */
  function Kept(h: seq<Message>, available: nat): seq<Message> {
    EachKeptOnce(h, available);
    Pick(h, Positions(h, available))
  }

  lemma WholeTail(h: seq<Message>)
    ensures TailCost(h, 0, None) == TokensOf(h)
    ensures forall i :: 0 <= i < |Tail(|h|, 0, None)| ==> Tail(|h|, 0, None)[i] < |h|
    ensures Pick(h, Tail(|h|, 0, None)) == h
  {
    EveryPosition(|h|, 0);
    TailTokens(h, 0, None);
    assert Pick(h, Tail(|h|, 0, None)) == h;
  }

  lemma {:induction false} EveryPosition(n: nat, s: nat)
    requires s <= n
    ensures Tail(n, s, None) == seq(n - s, i => s + i)
    decreases n - s
  {
    if s < n { EveryPosition(n, s + 1); }
  }

  lemma TruncatedTokens(h: seq<Message>, available: nat)
    requires TokensOf(h) > available
    ensures PinCost(h) <= TokensOf(Kept(h, available)) <= PinCost(h) + OthersBudget(h, available)
  {
    EachKeptOnce(h, available);
    var pin, budget := Pinned(h), OthersBudget(h, available);
    var e := Earliest(h, |h|, pin, budget);
    TailTokens(h, e, pin);
    EarliestFits(h, |h|, pin, budget);
    if pin.Some? {
      PickCons(h, pin.value, Tail(|h|, e, pin));
      assert Positions(h, available) == [pin.value] + Tail(|h|, e, pin);
    } else {
      assert Positions(h, available) == Tail(|h|, e, pin);
    }
  }

  /** The tokens kept: everything if it fits, else the pin plus a tail within what the pin leaves. */
  lemma KeptTokens(h: seq<Message>, available: nat)
    ensures TokensOf(h) <= available ==> Kept(h, available) == h
    ensures TokensOf(h) > available ==>
              PinCost(h) <= TokensOf(Kept(h, available)) <= PinCost(h) + OthersBudget(h, available)
  {
    if TokensOf(h) <= available {
      WholeTail(h);
    } else {
      TruncatedTokens(h, available);
    }
  }

  /** Tokens of everything sent: prompts, tool definitions, template, margin and history. */
  function SentTokens(r: Request, history: seq<Message>): nat {
    var h := NonSystem(history);
    r.systemTokens + r.userTokens + SentTools(r) + 10 * (|h| + 2) + 200
    + TokensOf(Kept(h, Available(r, |h|)))
  }

  /** What must be sent whatever is dropped: the reserve, and the pin if the history is truncated. */
  function Fixed(r: Request, history: seq<Message>): nat {
    var h := NonSystem(history);
    Reserved(r, |h|) + if TokensOf(h) > Available(r, |h|) then PinCost(h) else 0
  }

  /**
   When the sent tools are counted, the prompt fits its budget exactly when the part that
   truncation cannot drop fits; and the budget is at most 70% of the context.
   */
  lemma PromptFitsIff(r: Request, history: seq<Message>)
    requires r.includeTools || SentTools(r) == 0
    ensures SentTokens(r, history) <= PromptBudget(r) <==> Fixed(r, history) <= PromptBudget(r)
    ensures 100 * PromptBudget(r) <= 70 * r.maxContext
  {
    var h := NonSystem(history);
    KeptTokens(h, Available(r, |h|));
    BudgetShare(r);
  }

  lemma BudgetShare(r: Request)
    ensures 100 * PromptBudget(r) <= 70 * r.maxContext
  {
    assert r.maxContext * PromptRatio(r) <= r.maxContext * 70;
  }

  /** Tools that are sent but not counted overshoot the budget by no more than themselves. */
  lemma UncountedToolsOvershoot(r: Request, history: seq<Message>)
    requires !r.includeTools && Fixed(r, history) <= PromptBudget(r)
    ensures SentTokens(r, history) <= PromptBudget(r) + SentTools(r)
  {
    var h := NonSystem(history);
    KeptTokens(h, Available(r, |h|));
  }

  /** A history of one answer that exactly fills what the budget leaves. */
  function FullHistory(r: Request): seq<Message> {
    [Message(Assistant, "", Available(r, 1))]
  }

  /** The overshoot is reached: as soon as one message fits, some history is sent whole and exceeds the budget by all the tools. */
  lemma UncountedToolsOvershootFully(r: Request)
    requires !r.includeTools && Reserved(r, 1) <= PromptBudget(r)
    ensures Fixed(r, FullHistory(r)) <= PromptBudget(r)
    ensures SentTokens(r, FullHistory(r)) == PromptBudget(r) + SentTools(r)
  {
    var h := FullHistory(r);
    assert h[..0] == [];
    assert NonSystem(h) == h && TokensOf(h) == Available(r, 1);
    KeptTokens(h, Available(r, 1));
  }

  lemma EmptyHistoryTokens(r: Request)
    requires !r.includeTools
    ensures SentTokens(r, []) == Reserved(r, 0) + SentTools(r) && Fixed(r, []) == Reserved(r, 0)
  {
    assert NonSystem([]) == [];
    KeptTokens([], Available(r, 0));
  }

  /**
   With tools sent but not counted, every history whose fixed part fits still gives a prompt that
   fits exactly when no tools are sent, or the reserve never fits, or it fits only an empty history
   and then leaves room for the tools.
   */
  lemma UncountedToolsFitIff(r: Request)
    requires !r.includeTools
    ensures (forall history {:trigger SentTokens(r, history)} ::
               Fixed(r, history) <= PromptBudget(r) ==> SentTokens(r, history) <= PromptBudget(r))
       <==> || SentTools(r) == 0
            || Reserved(r, 0) > PromptBudget(r)
            || (Reserved(r, 1) > PromptBudget(r) && Reserved(r, 0) + SentTools(r) <= PromptBudget(r))
  {
    EmptyHistoryTokens(r);
    var b := PromptBudget(r);
    if Reserved(r, 1) <= b {
      UncountedToolsOvershootFully(r);
    }
    forall history
      ensures Fixed(r, history) <= b ==> Reserved(r, |NonSystem(history)|) <= b
      ensures SentTools(r) == 0 && Fixed(r, history) <= b ==> SentTokens(r, history) <= b
      ensures NonSystem(history) == [] ==> SentTokens(r, history) == SentTokens(r, [])
    {
      if SentTools(r) == 0 { PromptFitsIff(r, history); }
      assert NonSystem([]) == [];
    }
  }

  /** Compact mode is decided by the context alone. */
  lemma CompactIff(maxContext: nat)
    ensures Compact(maxContext) <==> maxContext < 10000
  {
  }

  /** One chat of that kind: a 32k context, the plain system prompt, and 500 tokens of tools. */
  lemma UncountedToolsCanOvershoot(r: Request)
    requires r == Request(32768, false, 20, 10, [ToolDef("shell", 500)], false)
    ensures Fixed(r, FullHistory(r)) <= PromptBudget(r) < SentTokens(r, FullHistory(r))
  {
    UncountedToolsOvershootFully(r);
    assert r.tools[..0] == [] && ToolTokens(r.tools[..0], false) == 0;
  }

  // ---------------------------------------------------------------------------
  // The implementation
  // ---------------------------------------------------------------------------

  function Reverse(ms: seq<Message>): (r: seq<Message>)
    ensures |r| == |ms| && forall i :: 0 <= i < |ms| ==> r[i] == ms[|ms| - 1 - i]
  {
    seq(|ms|, i requires 0 <= i < |ms| => ms[|ms| - 1 - i])
  }

  /** The messages at the positions of a tail. */
  function TailMessages(h: seq<Message>, s: nat, pin: Option<nat>): seq<Message>
    requires s <= |h|
    decreases |h| - s
  {
    if s == |h| then []
    else if pin == Some(s) then TailMessages(h, s + 1, pin)
    else [h[s]] + TailMessages(h, s + 1, pin)
  }

  lemma {:induction false} TailMessagesArePicked(h: seq<Message>, s: nat, pin: Option<nat>)
    requires s <= |h|
    ensures (forall i :: 0 <= i < |Tail(|h|, s, pin)| ==> Tail(|h|, s, pin)[i] < |h|)
         && TailMessages(h, s, pin) == Pick(h, Tail(|h|, s, pin))
    decreases |h| - s
  {
    if s < |h| {
      TailMessagesArePicked(h, s + 1, pin);
      if pin != Some(s) { PickCons(h, s, Tail(|h|, s + 1, pin)); }
    }
  }

  /** The backward scan: keep messages, newest first, while they fit, skipping the pinned one. */
  method KeepRecent(h: seq<Message>, pin: Option<nat>, budget: nat) returns (kept: seq<Message>)
    ensures kept == TailMessages(h, Earliest(h, |h|, pin, budget), pin)
  {
    var used, i: nat := 0, |h|;
    kept := [];
    while i > 0
      invariant i <= |h|
      invariant used == TailCost(h, i, pin) <= budget
      invariant Reverse(kept) == TailMessages(h, i, pin)
      invariant Earliest(h, |h|, pin, budget) == Earliest(h, i, pin, budget)
    {
      if pin == Some(i - 1) {
        i := i - 1;
        continue;
      }
      var tokens := h[i - 1].tokens;
      if used + tokens > budget {
        break;
      }
      used := used + tokens;
      ReversePush(kept, h[i - 1]);
      kept := kept + [h[i - 1]];
      i := i - 1;
    }
    kept := Reverse(kept);
  }

  lemma ReversePush(ms: seq<Message>, m: Message)
    ensures Reverse(ms + [m]) == [m] + Reverse(ms)
  {
  }

  /** Truncation proper: the pinned message, then the recent ones that fit beside it. */
  method Truncate(h: seq<Message>, available: nat) returns (kept: seq<Message>)
    ensures TokensOf(h) > available ==> kept == Kept(h, available)
  {
    var pin := Pinned(h);
    var pinTokens := if pin.Some? then h[pin.value].tokens else 0;
    var budget := if pinTokens < available then available - pinTokens else 0;
    assert budget == OthersBudget(h, available);
    kept := KeepRecent(h, pin, budget);
    if pin.Some? {
      kept := [h[pin.value]] + kept;
    }
    if TokensOf(h) > available { TruncatedMessages(h, available); }
  }

  /** The history part of the prompt built by `chat_stream_internal`, given the non-system history. */
  method SelectHistory(h: seq<Message>, available: nat) returns (kept: seq<Message>)
    ensures kept == Kept(h, available)
  {
    if TokensOf(h) <= available {
      KeptTokens(h, available);
      kept := h;
    } else {
      kept := Truncate(h, available);
    }
  }

  /** The filter over the history. */
  method FilterHistory(history: seq<Message>) returns (h: seq<Message>)
    ensures h == NonSystem(history)
  {
    h := [];
    for i := 0 to |history|
      invariant h == NonSystem(history[..i])
    {
      assert history[..i + 1][..i] == history[..i];
      if history[i].role != System {
        h := h + [history[i]];
      }
    }
    assert history[..|history|] == history;
  }

  /** The messages of the first call: the system prompt, the history that is kept, the question. */
  method BuildPrompt(r: Request, system: Message, history: Option<seq<Message>>, user: Message)
    returns (messages: seq<Message>)
    ensures |messages| >= 2 && messages[0] == system && messages[|messages| - 1] == user
    ensures history.None? ==> |messages| == 2
    ensures history.Some? ==>
              var h := NonSystem(history.value);
              messages[1..|messages| - 1] == Kept(h, Available(r, |h|))
  {
    if history.None? {
      return [system, user];
    }
    var h := FilterHistory(history.value);
    var kept := SelectHistory(h, Available(r, |h|));
    messages := [system] + kept + [user];
  }

  lemma TruncatedMessages(h: seq<Message>, available: nat)
    requires TokensOf(h) > available
    ensures var pin := Pinned(h);
            var tail := TailMessages(h, Earliest(h, |h|, pin, OthersBudget(h, available)), pin);
            Kept(h, available) == if pin.Some? then [h[pin.value]] + tail else tail
  {
    var pin := Pinned(h);
    var e := Earliest(h, |h|, pin, OthersBudget(h, available));
    EachKeptOnce(h, available);
    TailMessagesArePicked(h, e, pin);
    if pin.Some? {
      PickCons(h, pin.value, Tail(|h|, e, pin));
      assert Positions(h, available) == [pin.value] + Tail(|h|, e, pin);
    } else {
      assert Positions(h, available) == Tail(|h|, e, pin);
    }
  }
}
