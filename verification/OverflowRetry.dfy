/**
 The tiered context-overflow retry of `chat_stream_internal` (crates/heramind-agent/src/llm.rs):
 one chat swaps its backend stream, and the permit that goes with it, at most twice.
 */
module OverflowRetry {
  import opened Basics
  import HB = HistoryBudget

  /** What a backend stream delivers. A chunk holds the text left after its token marker. */
  datatype Item = Chunk(clean: string, thinking: bool) | Overflow(promptTokens: nat, maxContext: nat) | Failure(msg: string)

  /** The backend's answer to one `generate_stream` call. */
  datatype Response = Refuses(msg: string) | Streams(items: seq<Item>)

  datatype Output =
    | Text(text: string, thinking: bool)
    | BackendError(msg: string)
    | RetryFailed(stage: nat, msg: string)
    | Exhausted(promptTokens: nat, maxContext: nat)

  datatype Event = Generate(messages: seq<HB.Message>) | Acquire | Release | Yield(out: Output)

  /** A chat: the prompt it opens with, its history and question, and how the backend answers each call. */
  datatype Chat = Chat(prompt: seq<HB.Message>, history: Option<seq<HB.Message>>, user: HB.Message,
                       system: HB.Message, respond: nat -> Response)

  /** Strategy 1 keeps the last four non-system messages; strategy 2 keeps none. */
  function RetryMessages(chat: Chat, stage: nat): seq<HB.Message> {
    if stage == 1 && chat.history.Some? then
      var h := HB.NonSystem(chat.history.value);
      [chat.system] + h[if |h| < 4 then 0 else |h| - 4..] + [chat.user]
    else [chat.system, chat.user]
  }

  /** What the consumer gets for an item that is not an overflow: blank chunks are swallowed. */
  function Said(item: Item): seq<Output> {
    match item
    case Chunk(clean, thinking) => if clean != [] then [Text(clean, thinking)] else []
    case Failure(msg) => [BackendError(msg)]
    case Overflow(_, _) => []
  }

  function Saying(item: Item): seq<Event> {
    if Said(item) == [] then [] else [Yield(Said(item)[0])]
  }

  /** Everything that happens from `items` on, at retry stage `stage`, with the permit held. */
  function Play(chat: Chat, stage: nat, items: seq<Item>): seq<Event>
    requires stage <= 2
    decreases 2 - stage, |items|
  {
    if items == [] then [Release]
    else
      match items[0]
      case Overflow(p, m) =>
        if stage == 2 then [Yield(Exhausted(p, m)), Release]
        else [Release, Acquire, Generate(RetryMessages(chat, stage + 1))] + Retried(chat, stage + 1)
      case item => Saying(item) + Play(chat, stage, items[1..])
  }

  function Retried(chat: Chat, stage: nat): seq<Event>
    requires 1 <= stage <= 2
    decreases 2 - stage + 1, 0
  {
    match chat.respond(stage)
    case Refuses(msg) => [Yield(RetryFailed(stage, msg)), Release]
    case Streams(items) => Play(chat, stage, items)
  }

  /** The whole trace of one chat. */
  function Trace(chat: Chat): seq<Event> {
    [Generate(chat.prompt)] +
    match chat.respond(0)
    case Refuses(_) => []
    case Streams(items) => [Acquire] + Play(chat, 0, items)
  }

  // ---------------------------------------------------------------------------
  // Permits
  // ---------------------------------------------------------------------------

  /**
   Whether the permit is held after `trace`, or None if the trace acquires a second permit,
   releases one it does not hold, or yields without one.
   */
  function Holding(trace: seq<Event>, held: bool): Option<bool> {
    if trace == [] then Some(held)
    else
      match trace[0]
      case Acquire => if held then None else Holding(trace[1..], true)
      case Release => if held then Holding(trace[1..], false) else None
      case Yield(_) => if held then Holding(trace[1..], held) else None
      case Generate(_) => Holding(trace[1..], held)
  }

  lemma {:induction false} HoldingAppend(xs: seq<Event>, ys: seq<Event>, held: bool)
    ensures Holding(xs + ys, held)
         == match Holding(xs, held) case None => None case Some(h) => Holding(ys, h)
  {
    if xs == [] {
      assert xs + ys == ys;
    } else {
      assert (xs + ys)[1..] == xs[1..] + ys;
      HoldingAppend(xs[1..], ys, true);
      HoldingAppend(xs[1..], ys, false);
    }
  }

  lemma HoldingSteps(held: bool, e: Event, f: Event, g: Event)
    ensures Holding([e], held) == match e case Acquire => (if held then None else Some(true))
                                          case Release => (if held then Some(false) else None)
                                          case Yield(_) => (if held then Some(true) else None)
                                          case Generate(_) => Some(held)
    ensures Holding([e, f], held) == match Holding([e], held) case None => None case Some(h) => Holding([f], h)
    ensures Holding([e, f, g], held) == match Holding([e, f], held) case None => None case Some(h) => Holding([g], h)
  {
    assert [e][1..] == [] && [e, f] == [e] + [f] && [e, f, g] == [e, f] + [g];
    HoldingAppend([e], [f], held);
    HoldingAppend([e, f], [g], held);
  }

  lemma {:induction false} PlayReleases(chat: Chat, stage: nat, items: seq<Item>)
    requires stage <= 2
    ensures Holding(Play(chat, stage, items), true) == Some(false)
    decreases 2 - stage, |items|
  {
    if items == [] {
      HoldingSteps(true, Release, Release, Release);
    } else if items[0].Overflow? {
      if stage == 2 {
        HoldingSteps(true, Yield(Exhausted(items[0].promptTokens, items[0].maxContext)), Release, Release);
      } else {
        var swap := [Release, Acquire, Generate(RetryMessages(chat, stage + 1))];
        HoldingSteps(true, swap[0], swap[1], swap[2]);
        HoldingSteps(false, Acquire, swap[2], swap[2]);
        HoldingSteps(true, swap[2], swap[2], swap[2]);
        RetriedReleases(chat, stage + 1);
        HoldingAppend(swap, Retried(chat, stage + 1), true);
      }
    } else {
      PlayReleases(chat, stage, items[1..]);
      var said := Saying(items[0]);
      if said != [] { HoldingSteps(true, said[0], said[0], said[0]); }
      HoldingAppend(said, Play(chat, stage, items[1..]), true);
    }
  }

  lemma {:induction false} RetriedReleases(chat: Chat, stage: nat)
    requires 1 <= stage <= 2
    ensures Holding(Retried(chat, stage), true) == Some(false)
    decreases 2 - stage + 1, 0
  {
    match chat.respond(stage)
    case Refuses(msg) =>
      HoldingSteps(true, Yield(RetryFailed(stage, msg)), Release, Release);
      HoldingSteps(true, Release, Release, Release);
    case Streams(items) => PlayReleases(chat, stage, items);
  }

  /** Every chat ends without a permit, and at no point held two. */
  lemma TraceReleasesEverything(chat: Chat)
    ensures Holding(Trace(chat), false) == Some(false)
  {
    HoldingSteps(false, Generate(chat.prompt), Acquire, Acquire);
    HoldingSteps(false, Acquire, Acquire, Acquire);
    match chat.respond(0)
    case Refuses(_) => assert Trace(chat) == [Generate(chat.prompt)];
    case Streams(items) =>
      PlayReleases(chat, 0, items);
      var opening := [Generate(chat.prompt), Acquire];
      assert Trace(chat) == opening + Play(chat, 0, items);
      HoldingAppend(opening, Play(chat, 0, items), false);
  }

  // ---------------------------------------------------------------------------
  // Dropping the stream early
  // ---------------------------------------------------------------------------

  /** The locals of `chat_stream_internal` that can own a permit. */
  datatype Local = Permit | Stream | Permit2

  /** Which locals own a permit after each event of `Play`; retries hold `Permit2` until it is wrapped. */
  function PlayOwners(chat: Chat, stage: nat, items: seq<Item>): seq<set<Local>>
    requires stage <= 2
    decreases 2 - stage, |items|
  {
    if items == [] then [{}]
    else
      match items[0]
      case Overflow(_, _) =>
        if stage == 2 then [{Stream}, {}]
        else [{}, {Permit2}, {Permit2}] + RetriedOwners(chat, stage + 1)
      case item => seq(|Said(item)|, _ => {Stream}) + PlayOwners(chat, stage, items[1..])
  }

  function RetriedOwners(chat: Chat, stage: nat): seq<set<Local>>
    requires 1 <= stage <= 2
    decreases 2 - stage + 1, 0
  {
    match chat.respond(stage)
    case Refuses(_) => [{Permit2}, {}]
    case Streams(items) => PlayOwners(chat, stage, items)
  }

  function Owners(chat: Chat): seq<set<Local>> {
    [{}] +
    match chat.respond(0)
    case Refuses(_) => []
    case Streams(items) => [{Permit}] + PlayOwners(chat, 0, items)
  }

  /** The owning locals after `k` events, when `start` owned before the first. */
  function OwnedAfter(owners: seq<set<Local>>, start: set<Local>, k: nat): set<Local>
    requires k <= |owners|
  {
    if k == 0 then start else owners[k - 1]
  }

  /** After `k` events some local, and only one, owns a permit exactly if one was acquired and not released. */
  ghost predicate OwnedIsHeld(trace: seq<Event>, owners: seq<set<Local>>, start: set<Local>, k: nat)
    requires |owners| == |trace| && k <= |trace|
  {
    var owned := OwnedAfter(owners, start, k);
    |owned| <= 1 && Holding(trace[..k], start != {}) == Some(owned != {})
  }

  ghost predicate Accounted(trace: seq<Event>, owners: seq<set<Local>>, start: set<Local>) {
    |owners| == |trace| && forall k :: 0 <= k <= |trace| ==> OwnedIsHeld(trace, owners, start, k)
  }

  /** One more event in front; `next` owns once the rest starts. */
  lemma AccountedStep(e: Event, o: set<Local>, trace: seq<Event>, owners: seq<set<Local>>, start: set<Local>, next: set<Local>)
    requires |start| <= 1 && |o| <= 1 && Holding([e], start != {}) == Some(o != {})
    requires Accounted(trace, owners, next) && (next != {} <==> o != {})
    ensures Accounted([e] + trace, [o] + owners, start)
  {
    var all, os := [e] + trace, [o] + owners;
    forall k | 0 <= k <= |all| ensures OwnedIsHeld(all, os, start, k) {
      if k > 0 {
        assert all[..k] == [e] + trace[..k - 1];
        HoldingAppend([e], trace[..k - 1], start != {});
        assert OwnedIsHeld(trace, owners, next, k - 1);
        assert trace[..0] == [];
      }
    }
  }

  lemma NothingAccounted(start: set<Local>)
    requires |start| <= 1
    ensures Accounted([], [], start)
  {
    assert forall k :: 0 <= k <= 0 ==> OwnedIsHeld([], [], start, k);
  }

  lemma {:induction false} PlayAccounted(chat: Chat, stage: nat, items: seq<Item>)
    requires stage <= 2
    ensures Accounted(Play(chat, stage, items), PlayOwners(chat, stage, items), {Stream})
    decreases 2 - stage, |items|
  {
    if items == [] {
      LastRelease({Stream});
    } else if items[0].Overflow? {
      if stage == 2 {
        YieldThenRelease(Exhausted(items[0].promptTokens, items[0].maxContext), {Stream});
      } else {
        RetriedAccounted(chat, stage + 1);
        SwapAccounted(RetryMessages(chat, stage + 1), Retried(chat, stage + 1), RetriedOwners(chat, stage + 1),
                      if chat.respond(stage + 1).Refuses? then {Permit2} else {Stream});
      }
    } else {
      var rest, owners := Play(chat, stage, items[1..]), PlayOwners(chat, stage, items[1..]);
      PlayAccounted(chat, stage, items[1..]);
      if Said(items[0]) == [] {
        assert Saying(items[0]) + rest == rest;
        assert seq(|Said(items[0])|, _ => {Stream}) + owners == owners;
      } else {
        var e := Saying(items[0])[0];
        HoldingSteps(true, e, e, e);
        AccountedStep(e, {Stream}, rest, owners, {Stream}, {Stream});
        assert seq(|Said(items[0])|, _ => {Stream}) == [{Stream}];
      }
    }
  }

  lemma {:induction false} RetriedAccounted(chat: Chat, stage: nat)
    requires 1 <= stage <= 2
    ensures Accounted(Retried(chat, stage), RetriedOwners(chat, stage),
                      if chat.respond(stage).Refuses? then {Permit2} else {Stream})
    decreases 2 - stage + 1, 0
  {
    match chat.respond(stage)
    case Refuses(msg) => YieldThenRelease(RetryFailed(stage, msg), {Permit2});
    case Streams(items) => PlayAccounted(chat, stage, items);
  }

  lemma LastRelease(owner: set<Local>)
    requires |owner| == 1
    ensures Accounted([Release], [{}], owner)
  {
    NothingAccounted({});
    HoldingSteps(true, Release, Release, Release);
    AccountedStep(Release, {}, [], [], owner, {});
    assert [Release] + [] == [Release];
  }

  lemma YieldThenRelease(out: Output, owner: set<Local>)
    requires |owner| == 1
    ensures Accounted([Yield(out), Release], [owner, {}], owner)
  {
    LastRelease(owner);
    HoldingSteps(true, Yield(out), Release, Release);
    AccountedStep(Yield(out), owner, [Release], [{}], owner, owner);
    assert [Yield(out)] + [Release] == [Yield(out), Release] && [owner] + [{}] == [owner, {}];
  }

  lemma SwapAccounted(messages: seq<HB.Message>, rest: seq<Event>, owners: seq<set<Local>>, next: set<Local>)
    requires Accounted(rest, owners, next) && next != {}
    ensures Accounted([Release, Acquire, Generate(messages)] + rest, [{}, {Permit2}, {Permit2}] + owners, {Stream})
  {
    var ask := Generate(messages);
    HoldingSteps(true, ask, ask, ask);
    HoldingSteps(false, Acquire, ask, ask);
    HoldingSteps(true, Release, ask, ask);
    AccountedStep(ask, {Permit2}, rest, owners, {Permit2}, next);
    AccountedStep(Acquire, {Permit2}, [ask] + rest, [{Permit2}] + owners, {}, {Permit2});
    AccountedStep(Release, {}, [Acquire] + ([ask] + rest), [{Permit2}] + ([{Permit2}] + owners), {Stream}, {});
    assert [Release] + ([Acquire] + ([ask] + rest)) == [Release, Acquire, ask] + rest;
    assert [{}] + ([{Permit2}] + ([{Permit2}] + owners)) == [{}, {Permit2}, {Permit2}] + owners;
  }

  /** At every point of a chat, the permit that is out is the one some local owns. */
  lemma TraceAccounted(chat: Chat)
    ensures Accounted(Trace(chat), Owners(chat), {})
  {
    var ask := Generate(chat.prompt);
    HoldingSteps(false, ask, Acquire, Acquire);
    HoldingSteps(false, Acquire, Acquire, Acquire);
    match chat.respond(0)
    case Refuses(_) =>
      NothingAccounted({});
      AccountedStep(ask, {}, [], [], {}, {});
    case Streams(items) =>
      var rest, owners := Play(chat, 0, items), PlayOwners(chat, 0, items);
      PlayAccounted(chat, 0, items);
      AccountedStep(Acquire, {Permit}, rest, owners, {}, {Stream});
      AccountedStep(ask, {}, [Acquire] + rest, [{Permit}] + owners, {}, {});
  }

  /** A chat dropped after `k` events: each local that owns a permit then releases it. */
  function DroppedAfter(chat: Chat, k: nat): seq<Event>
    requires k <= |Trace(chat)| == |Owners(chat)|
  {
    Trace(chat)[..k] + seq(|OwnedAfter(Owners(chat), {}, k)|, _ => Release)
  }

  /** However early the chat is dropped, dropping its locals loses no permit and releases none twice. */
  lemma EarlyDropReleases(chat: Chat, k: nat)
    requires k <= |Trace(chat)|
    ensures |Trace(chat)| == |Owners(chat)| && Holding(DroppedAfter(chat, k), false) == Some(false)
  {
    TraceAccounted(chat);
    assert OwnedIsHeld(Trace(chat), Owners(chat), {}, k);
    var owned := OwnedAfter(Owners(chat), {}, k);
    var releases := seq(|owned|, _ => Release);
    HoldingAppend(Trace(chat)[..k], releases, false);
    HoldingSteps(true, Release, Release, Release);
    if owned == {} {
      assert releases == [];
    } else {
      assert |owned| == 1 && releases == [Release];
    }
  }

  // ---------------------------------------------------------------------------
  // Backend calls and output
  // ---------------------------------------------------------------------------

  /** The message lists passed to `generate_stream`, in order. */
  function Calls(trace: seq<Event>): seq<seq<HB.Message>> {
    if trace == [] then []
    else (if trace[0].Generate? then [trace[0].messages] else []) + Calls(trace[1..])
  }

  function Yields(trace: seq<Event>): seq<Output> {
    if trace == [] then []
    else (if trace[0].Yield? then [trace[0].out] else []) + Yields(trace[1..])
  }

  lemma {:induction false} ProjectionsAppend(xs: seq<Event>, ys: seq<Event>)
    ensures Calls(xs + ys) == Calls(xs) + Calls(ys) && Yields(xs + ys) == Yields(xs) + Yields(ys)
  {
    if xs == [] {
      assert xs + ys == ys;
    } else {
      assert (xs + ys)[1..] == xs[1..] + ys;
      ProjectionsAppend(xs[1..], ys);
    }
  }

  lemma ProjectionsOfTwo(e: Event, f: Event)
    ensures Yields([e]) == if e.Yield? then [e.out] else []
    ensures Calls([e]) == if e.Generate? then [e.messages] else []
    ensures Yields([e, f]) == Yields([e]) + Yields([f]) && Calls([e, f]) == Calls([e]) + Calls([f])
  {
    assert [e][1..] == [] && [e, f] == [e] + [f];
    ProjectionsAppend([e], [f]);
  }

  /** The text a stream delivers before its first overflow. */
  function Before(items: seq<Item>): seq<Output> {
    if items == [] || items[0].Overflow? then []
    else Said(items[0]) + Before(items[1..])
  }

  function FirstOverflow(items: seq<Item>): Option<Item> {
    if items == [] then None else if items[0].Overflow? then Some(items[0]) else FirstOverflow(items[1..])
  }

  /** What the consumer should see from stage `stage` on: each attempt up to its overflow, then the next. */
  function Delivered(chat: Chat, stage: nat, items: seq<Item>): seq<Output>
    requires stage <= 2
    decreases 2 - stage, 1
  {
    Before(items) + if FirstOverflow(items).Some? then Overflowed(chat, stage, FirstOverflow(items).value) else []
  }

  function Overflowed(chat: Chat, stage: nat, o: Item): seq<Output>
    requires stage <= 2
    decreases 2 - stage, 0
  {
    if !o.Overflow? then []
    else if stage == 2 then [Exhausted(o.promptTokens, o.maxContext)]
    else
      match chat.respond(stage + 1)
      case Refuses(msg) => [RetryFailed(stage + 1, msg)]
      case Streams(next) => Delivered(chat, stage + 1, next)
  }

  /** The retries still to come, one per overflow that is answered by another attempt. */
  function Retries(chat: Chat, stage: nat, items: seq<Item>): seq<seq<HB.Message>>
    requires stage <= 2
    decreases 2 - stage
  {
    if FirstOverflow(items).None? || stage == 2 then []
    else [RetryMessages(chat, stage + 1)] +
         match chat.respond(stage + 1)
         case Refuses(_) => []
         case Streams(next) => Retries(chat, stage + 1, next)
  }

  lemma DeliveredStep(chat: Chat, stage: nat, items: seq<Item>)
    requires stage <= 2 && items != []
    ensures Delivered(chat, stage, items)
         == if items[0].Overflow? then Overflowed(chat, stage, items[0])
            else Said(items[0]) + Delivered(chat, stage, items[1..])
  {
  }

  lemma SayingSays(item: Item)
    ensures Yields(Saying(item)) == Said(item) && Calls(Saying(item)) == []
  {
    if Said(item) != [] { ProjectionsOfTwo(Saying(item)[0], Release); }
  }

  lemma SwapProjects(chat: Chat, stage: nat, rest: seq<Event>)
    ensures var swap := [Release, Acquire, Generate(RetryMessages(chat, stage))];
            && Yields(swap + rest) == Yields(rest)
            && Calls(swap + rest) == [RetryMessages(chat, stage)] + Calls(rest)
  {
    hide Calls, Yields, RetryMessages;
    var ask := Generate(RetryMessages(chat, stage));
    var swap := [Release, Acquire] + [ask];
    assert swap == [Release, Acquire, ask];
    ProjectionsOfTwo(Release, Acquire);
    ProjectionsOfTwo(ask, ask);
    ProjectionsOfTwo(Acquire, ask);
    ProjectionsAppend([Release, Acquire], [ask]);
    ProjectionsAppend(swap, rest);
  }

  lemma {:induction false} PlayYields(chat: Chat, stage: nat, items: seq<Item>)
    requires stage <= 2
    ensures Yields(Play(chat, stage, items)) == Delivered(chat, stage, items)
    decreases 2 - stage, |items|
  {
    ProjectionsOfTwo(Release, Release);
    if items != [] {
      DeliveredStep(chat, stage, items);
      var item := items[0];
      if !item.Overflow? {
        PlayYields(chat, stage, items[1..]);
        SayingSays(item);
        ProjectionsAppend(Saying(item), Play(chat, stage, items[1..]));
      } else if stage == 2 {
        ProjectionsOfTwo(Yield(Exhausted(item.promptTokens, item.maxContext)), Release);
      } else {
        RetriedYields(chat, stage, item);
        SwapProjects(chat, stage + 1, Retried(chat, stage + 1));
      }
    }
  }

  lemma {:induction false} RetriedYields(chat: Chat, stage: nat, item: Item)
    requires stage < 2 && item.Overflow?
    ensures Yields(Retried(chat, stage + 1)) == Overflowed(chat, stage, item)
    decreases 2 - stage, 0
  {
    match chat.respond(stage + 1)
    case Refuses(msg) =>
      ProjectionsOfTwo(Yield(RetryFailed(stage + 1, msg)), Release);
      ProjectionsOfTwo(Release, Release);
    case Streams(next) => PlayYields(chat, stage + 1, next);
  }

  lemma {:induction false} PlayCalls(chat: Chat, stage: nat, items: seq<Item>)
    requires stage <= 2
    ensures Calls(Play(chat, stage, items)) == Retries(chat, stage, items)
    decreases 2 - stage, |items|
  {
    ProjectionsOfTwo(Release, Release);
    if items != [] {
      var item := items[0];
      if !item.Overflow? {
        PlayCalls(chat, stage, items[1..]);
        SayingSays(item);
        ProjectionsAppend(Saying(item), Play(chat, stage, items[1..]));
      } else if stage == 2 {
        ProjectionsOfTwo(Yield(Exhausted(item.promptTokens, item.maxContext)), Release);
      } else {
        SwapProjects(chat, stage + 1, Retried(chat, stage + 1));
        match chat.respond(stage + 1)
        case Refuses(msg) => ProjectionsOfTwo(Yield(RetryFailed(stage + 1, msg)), Release);
        case Streams(next) => PlayCalls(chat, stage + 1, next);
      }
    }
  }

  lemma OpeningProjects(chat: Chat)
    requires chat.respond(0).Streams?
    ensures var items := chat.respond(0).items;
            && Yields(Trace(chat)) == Delivered(chat, 0, items)
            && Calls(Trace(chat)) == [chat.prompt] + Retries(chat, 0, items)
  {
    var items := chat.respond(0).items;
    var opening := [Generate(chat.prompt), Acquire];
    assert Trace(chat) == opening + Play(chat, 0, items);
    ProjectionsAppend(opening, Play(chat, 0, items));
    ProjectionsOfTwo(Generate(chat.prompt), Acquire);
    ProjectionsOfTwo(Acquire, Acquire);
    PlayYields(chat, 0, items);
    PlayCalls(chat, 0, items);
  }

  /** At most three backend calls; the first retry has at most six messages, the second exactly two. */
  lemma AtMostThreeCalls(chat: Chat)
    ensures var calls := Calls(Trace(chat));
            && 1 <= |calls| <= 3 && calls[0] == chat.prompt
            && (|calls| >= 2 ==> 2 <= |calls[1]| <= 6 && calls[1][|calls[1]| - 1] == chat.user)
            && (|calls| == 3 ==> calls[2] == [chat.system, chat.user])
  {
    if chat.respond(0).Streams? {
      OpeningProjects(chat);
    } else {
      ProjectionsOfTwo(Generate(chat.prompt), Acquire);
      assert Trace(chat) == [Generate(chat.prompt)];
    }
  }

  ghost predicate Overflows(response: Response) {
    response.Streams? && exists i :: 0 <= i < |response.items| && response.items[i].Overflow?
  }

  lemma {:induction false} FirstOverflowIff(items: seq<Item>)
    ensures FirstOverflow(items).Some? <==> exists i :: 0 <= i < |items| && items[i].Overflow?
  {
    if items != [] {
      FirstOverflowIff(items[1..]);
      if FirstOverflow(items[1..]).Some? {
        var i :| 0 <= i < |items[1..]| && items[1..][i].Overflow?;
        assert items[i + 1].Overflow?;
      }
      if i :| 0 <= i < |items| && items[i].Overflow? && i > 0 {
        assert items[1..][i - 1].Overflow?;
      }
    }
  }

  /** The last `n` non-system messages of the history, between the system message and the question. */
  ghost predicate AsksWithLast(chat: Chat, call: seq<HB.Message>, n: nat) {
    var h := if chat.history.Some? then HB.NonSystem(chat.history.value) else [];
    && n <= |h| && |call| == n + 2 && call[0] == chat.system && call[n + 1] == chat.user
    && forall j :: 1 <= j <= n ==> call[j] == h[|h| - n + (j - 1)]
  }

  /**
   Every backend call: the prompt; after an overflow, the last four non-system messages, or all if
   there are fewer; after another overflow, no history. And there are no more calls than that.
   */
  lemma CallsByPosition(chat: Chat)
    ensures var calls := Calls(Trace(chat));
            var m := if chat.history.Some? then |HB.NonSystem(chat.history.value)| else 0;
            && |calls| >= 1 && calls[0] == chat.prompt
            && (|calls| >= 2 <==> Overflows(chat.respond(0)))
            && (|calls| >= 2 ==> AsksWithLast(chat, calls[1], if m < 4 then m else 4))
            && (|calls| >= 3 <==> Overflows(chat.respond(0)) && Overflows(chat.respond(1)))
            && (|calls| >= 3 ==> |calls| == 3 && AsksWithLast(chat, calls[2], 0))
  {
    hide Calls, Play, Yields, FirstOverflow;
    if chat.respond(0).Streams? {
      hide Trace;
      OpeningProjects(chat);
      FirstOverflowIff(chat.respond(0).items);
    } else {
      ProjectionsOfTwo(Generate(chat.prompt), Acquire);
      assert Trace(chat) == [Generate(chat.prompt)];
    }
    if chat.respond(1).Streams? { FirstOverflowIff(chat.respond(1).items); }
  }

  /** What a consumer makes of the output: letters with their thinking flag, and errors. */
  datatype Mark = Letter(c: char, thinking: bool) | Error(out: Output)

  function Letters(text: string, thinking: bool): seq<Mark> {
    seq(|text|, i requires 0 <= i < |text| => Letter(text[i], thinking))
  }

  function MarksOf(out: Output): seq<Mark> {
    if out.Text? then Letters(out.text, out.thinking) else [Error(out)]
  }

  function Marks(outs: seq<Output>): seq<Mark> {
    if outs == [] then [] else MarksOf(outs[0]) + Marks(outs[1..])
  }

  /** The letters and errors a stream carries before its first overflow. */
  function Carried(items: seq<Item>): seq<Mark> {
    if items == [] then []
    else
      match items[0]
      case Chunk(clean, thinking) => Letters(clean, thinking) + Carried(items[1..])
      case Failure(msg) => [Error(BackendError(msg))] + Carried(items[1..])
      case Overflow(_, _) => []
  }

  lemma {:induction false} MarksAppend(a: seq<Output>, b: seq<Output>)
    ensures Marks(a + b) == Marks(a) + Marks(b)
  {
    hide MarksOf;
    if a == [] {
      assert a + b == b;
    } else {
      MarksAppend(a[1..], b);
      assert (a + b)[1..] == a[1..] + b && (a + b)[0] == a[0];
      var x, y, z := MarksOf(a[0]), Marks(a[1..]), Marks(b);
      assert Marks(a + b) == x + (y + z) && Marks(a) == x + y;
      hide Marks;
      assert x + (y + z) == (x + y) + z;
    }
  }

  /** Letter by letter, a stream is passed on up to its first overflow: blank chunks leave no trace. */
  lemma {:induction false} BeforeIsCarried(items: seq<Item>)
    ensures Marks(Before(items)) == Carried(items)
  {
    if items != [] && !items[0].Overflow? {
      BeforeIsCarried(items[1..]);
      MarksAppend(Said(items[0]), Before(items[1..]));
      if Said(items[0]) != [] {
        assert Said(items[0])[1..] == [];
        assert Marks(Said(items[0])[1..]) == [];
      }
    }
  }

  /** A chat that does not overflow delivers exactly the letters and errors of its stream. */
  lemma PlainChatDelivers(chat: Chat)
    requires chat.respond(0).Streams? && !Overflows(chat.respond(0))
    ensures Marks(Yields(Trace(chat))) == Carried(chat.respond(0).items)
  {
    OutputIsDelivered(chat);
    FirstOverflowIff(chat.respond(0).items);
    BeforeIsCarried(chat.respond(0).items);
    var items := chat.respond(0).items;
    assert Delivered(chat, 0, items) == Before(items) + [] == Before(items);
  }

  /** The consumer sees each attempt's text up to its overflow, and an error only when no retry is left. */
  lemma OutputIsDelivered(chat: Chat)
    requires chat.respond(0).Streams?
    ensures Yields(Trace(chat)) == Delivered(chat, 0, chat.respond(0).items)
  {
    OpeningProjects(chat);
  }

  // ---------------------------------------------------------------------------
  // The implementation
  // ---------------------------------------------------------------------------

  /** The trace so far and the owners so far, completed by what is still to come. */
  ghost predicate Completes(chat: Chat, trace: seq<Event>, owners: seq<set<Local>>, rest: seq<Event>, more: seq<set<Local>>) {
    trace + rest == Trace(chat) && owners + more == Owners(chat)
  }

  lemma Advance(chat: Chat, trace: seq<Event>, owners: seq<set<Local>>, es: seq<Event>, os: seq<set<Local>>,
                rest: seq<Event>, more: seq<set<Local>>)
    requires Completes(chat, trace, owners, es + rest, os + more)
    ensures Completes(chat, trace + es, owners + os, rest, more)
  {
    assert trace + (es + rest) == (trace + es) + rest && owners + (os + more) == (owners + os) + more;
  }

  /** An item that is no overflow is passed on, if it says anything. */
  lemma PassOn(chat: Chat, trace: seq<Event>, owners: seq<set<Local>>, stage: nat, items: seq<Item>)
    requires stage <= 2 && items != [] && !items[0].Overflow?
    requires Completes(chat, trace, owners, Play(chat, stage, items), PlayOwners(chat, stage, items))
    ensures var n := |Said(items[0])|;
            Completes(chat, trace + Saying(items[0]), owners + seq(n, _ => {Stream}),
                      Play(chat, stage, items[1..]), PlayOwners(chat, stage, items[1..]))
  {
    var os: seq<set<Local>> := seq(|Said(items[0])|, _ => {Stream});
    var rest, more := Play(chat, stage, items[1..]), PlayOwners(chat, stage, items[1..]);
    assert Play(chat, stage, items) == Saying(items[0]) + rest && PlayOwners(chat, stage, items) == os + more;
    hide *;
    Advance(chat, trace, owners, Saying(items[0]), os, rest, more);
  }

  /** An overflow before the last stage swaps the stream. */
  lemma SwapOn(chat: Chat, trace: seq<Event>, owners: seq<set<Local>>, stage: nat, items: seq<Item>)
    requires stage < 2 && items != [] && items[0].Overflow?
    requires Completes(chat, trace, owners, Play(chat, stage, items), PlayOwners(chat, stage, items))
    ensures Completes(chat, trace + [Release, Acquire, Generate(RetryMessages(chat, stage + 1))],
                      owners + [{}, {Permit2}, {Permit2}], Retried(chat, stage + 1), RetriedOwners(chat, stage + 1))
  {
    var es, rest := [Release, Acquire, Generate(RetryMessages(chat, stage + 1))], Retried(chat, stage + 1);
    var os, more := [{}, {Permit2}, {Permit2}], RetriedOwners(chat, stage + 1);
    assert Play(chat, stage, items) == es + rest && PlayOwners(chat, stage, items) == os + more;
    hide *;
    Advance(chat, trace, owners, es, os, rest, more);
  }

  lemma Opening(chat: Chat)
    ensures chat.respond(0).Refuses? ==> Trace(chat) == [Generate(chat.prompt)] && Owners(chat) == [{}]
    ensures chat.respond(0).Streams? ==>
              var items := chat.respond(0).items;
              Completes(chat, [Generate(chat.prompt), Acquire], [{}, {Permit}], Play(chat, 0, items), PlayOwners(chat, 0, items))
  {
    hide Play, PlayOwners;
  }

  /** The three ways a chat ends once its stream is open. */
  lemma Endings(chat: Chat, stage: nat, items: seq<Item>)
    requires stage <= 2
    ensures items == [] ==> Play(chat, stage, items) == [Release] && PlayOwners(chat, stage, items) == [{}]
    ensures stage == 2 && items != [] && items[0].Overflow? ==>
              && Play(chat, stage, items) == [Yield(Exhausted(items[0].promptTokens, items[0].maxContext)), Release]
              && PlayOwners(chat, stage, items) == [{Stream}, {}]
    ensures 1 <= stage && chat.respond(stage).Refuses? ==>
              && Retried(chat, stage) == [Yield(RetryFailed(stage, chat.respond(stage).msg)), Release]
              && RetriedOwners(chat, stage) == [{Permit2}, {}]
    ensures 1 <= stage && chat.respond(stage).Streams? ==>
              && Retried(chat, stage) == Play(chat, stage, chat.respond(stage).items)
              && RetriedOwners(chat, stage) == PlayOwners(chat, stage, chat.respond(stage).items)
  {
  }

  /** `chat_stream_internal` from its first backend call on; `held` are its locals that own a permit. */
  method ChatStream(chat: Chat) returns (trace: seq<Event>, owners: seq<set<Local>>)
    ensures trace == Trace(chat) && owners == Owners(chat)
  {
    hide Trace, Owners, Play, PlayOwners, Retried, RetriedOwners, RetryMessages;
    Opening(chat);
    var held: set<Local> := {};
    trace, owners := [Generate(chat.prompt)], [held];
    var response := chat.respond(0);
    if response.Refuses? {
      return;
    }
    held := {Permit};
    trace, owners := trace + [Acquire], owners + [held];
    var stream, retryStage: nat := response.items, 0;
    held := {Stream};
    while stream != []
      invariant retryStage <= 2 && held == {Stream}
      invariant Completes(chat, trace, owners, Play(chat, retryStage, stream), PlayOwners(chat, retryStage, stream))
      decreases 2 - retryStage, |stream|
    {
      var result := stream[0];
      if result.Overflow? {
        Endings(chat, retryStage, stream);
        if retryStage == 2 {
          trace := trace + [Yield(Exhausted(result.promptTokens, result.maxContext)), Release];
          owners := owners + [held, {}];
          return;
        }
        SwapOn(chat, trace, owners, retryStage, stream);
        retryStage := retryStage + 1;
        held := {Permit2};
        trace := trace + [Release, Acquire, Generate(RetryMessages(chat, retryStage))];
        owners := owners + [{}, held, held];
        Endings(chat, retryStage, []);
        match chat.respond(retryStage) {
          case Refuses(msg) =>
            trace := trace + [Yield(RetryFailed(retryStage, msg)), Release];
            owners := owners + [held, {}];
            return;
          case Streams(items) =>
            stream, held := items, {Stream};
        }
      } else {
        PassOn(chat, trace, owners, retryStage, stream);
        stream := stream[1..];
        trace, owners := trace + Saying(result), owners + seq(|Said(result)|, _ => held);
      }
    }
    Endings(chat, retryStage, stream);
    trace, owners := trace + [Release], owners + [{}];
  }
}
