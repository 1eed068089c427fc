/**
 Reloading the API-key cache (crates/heramind-api/src/auth.rs): a CAS throttle on one atomic
 timestamp, a refresh that inserts before it retains, and the table rewrite it reads back.
 */
module ApiKeyReload {
  import opened Basics

  const RELOAD_GAP_MS: nat := 5000

  // ---------------------------------------------------------------------------
  // The throttle
  // ---------------------------------------------------------------------------

  datatype Pc = Idle | ReadClock(now: nat) | Loaded(now: nat, last: nat)

  /** `wins` lists the timestamps of the reloads that won the CAS, oldest first. */
  datatype Throttle = Throttle(last: nat, pcs: map<nat, Pc>, wins: seq<nat>)

  datatype ThrottleStep =
    | Clock(thread: nat, now: nat)
    | Load(thread: nat)
    | SkipRecent(thread: nat)
    | Cas(thread: nat)

  function At(t: Throttle, thread: nat): Pc {
    if thread in t.pcs then t.pcs[thread] else Idle
  }

  /** `now.saturating_sub(last) < 5_000`. */
  predicate Recent(now: nat, last: nat) {
    now < last + RELOAD_GAP_MS
  }

  /** One access by one thread; clock readings are arbitrary. */
  function Apply(t: Throttle, step: ThrottleStep): Option<Throttle> {
    var pc := At(t, step.thread);
    match step
    case Clock(i, now) => if pc.Idle? then Some(t.(pcs := t.pcs[i := ReadClock(now)])) else None
    case Load(i) => if pc.ReadClock? then Some(t.(pcs := t.pcs[i := Loaded(pc.now, t.last)])) else None
    case SkipRecent(i) =>
      if pc.Loaded? && Recent(pc.now, pc.last) then Some(t.(pcs := t.pcs[i := Idle])) else None
    case Cas(i) =>
      if !pc.Loaded? || Recent(pc.now, pc.last) then None
      else if t.last == pc.last then Some(Throttle(pc.now, t.pcs[i := Idle], t.wins + [pc.now]))
      else Some(t.(pcs := t.pcs[i := Idle]))
  }

  function Run(steps: seq<ThrottleStep>): Option<Throttle> {
    if steps == [] then Some(Throttle(0, map[], []))
    else
      match Run(steps[..|steps| - 1])
      case None => None
      case Some(t) => Apply(t, steps[|steps| - 1])
  }

  ghost predicate Spaced(wins: seq<nat>) {
    forall i, j :: 0 <= i < j < |wins| ==> wins[i] + RELOAD_GAP_MS <= wins[j]
  }

  /** Under any interleaving and any clock, winning reloads are at least 5 seconds apart and ascend. */
  lemma {:induction false} ReloadsAreSpaced(steps: seq<ThrottleStep>)
    requires Run(steps).Some?
    ensures var t := Run(steps).value;
            Spaced(t.wins) && t.last == if t.wins == [] then 0 else t.wins[|t.wins| - 1]
  {
    if steps != [] { ReloadsAreSpaced(steps[..|steps| - 1]); }
  }

  lemma RunStep(steps: seq<ThrottleStep>, step: ThrottleStep)
    requires Run(steps).Some?
    ensures Run(steps + [step]) == Apply(Run(steps).value, step)
  {
    assert (steps + [step])[..|steps|] == steps;
  }

  /**
   After any run, an idle thread that takes its three accesses undisturbed wins a reload exactly when
   its clock reads at least 5 seconds after the last win; otherwise it skips, and nothing changes.
   */
  lemma UndisturbedThreadWinsIff(steps: seq<ThrottleStep>, i: nat, now: nat)
    requires Run(steps).Some? && At(Run(steps).value, i) == Idle
    ensures var t, loaded := Run(steps).value, Run(steps + [Clock(i, now)] + [Load(i)]);
            && loaded.Some?
            && (var won, skipped := Apply(loaded.value, Cas(i)), Apply(loaded.value, SkipRecent(i));
                if now >= t.last + 5000
                then won.Some? && won.value.wins == t.wins + [now] && won.value.last == now && skipped.None?
                else won.None? && skipped.Some? && skipped.value.wins == t.wins && skipped.value.last == t.last)
  {
    RunStep(steps, Clock(i, now));
    RunStep(steps + [Clock(i, now)], Load(i));
    hide Run;
  }

  // ---------------------------------------------------------------------------
  // The refresh
  // ---------------------------------------------------------------------------

  datatype Info = Info(id: string, name: string, createdAt: int, permissions: seq<string>, active: bool)

  datatype Entry = Entry(encrypted: string, info: Info)

  type Keys = map<string, Entry>

  /** A reload in progress: rows still to insert, then keys still to be looked at by `retain`. */
  datatype Phase = Inserting(todo: set<string>) | Retaining(todo: set<string>) | Finished

  datatype Reload = Reload(memory: Keys, table: Keys, phase: Phase)

  datatype ReloadStep = Insert(hash: string) | StartRetain | Visit(hash: string) | Finish

  function ReloadApply(r: Reload, step: ReloadStep): Option<Reload> {
    match step
    case Insert(h) =>
      if r.phase.Inserting? && h in r.phase.todo && h in r.table
      then Some(r.(memory := r.memory[h := r.table[h]], phase := Inserting(r.phase.todo - {h}))) else None
    case StartRetain =>
      if r.phase == Inserting({}) then Some(r.(phase := Retaining(r.memory.Keys))) else None
    case Visit(h) =>
      if r.phase.Retaining? && h in r.phase.todo
      then Some(r.(memory := if h in r.table then r.memory else r.memory - {h},
                   phase := Retaining(r.phase.todo - {h}))) else None
    case Finish => if r.phase == Retaining({}) then Some(r.(phase := Finished)) else None
  }

  function ReloadRun(memory: Keys, table: Keys, steps: seq<ReloadStep>): Option<Reload> {
    if steps == [] then Some(Reload(memory, table, Inserting(table.Keys)))
    else
      match ReloadRun(memory, table, steps[..|steps| - 1])
      case None => None
      case Some(r) => ReloadApply(r, steps[|steps| - 1])
  }

  ghost predicate ReloadInv(memory: Keys, table: Keys, r: Reload) {
    && r.table == table
    && (forall h :: h in r.memory ==> (h in table && r.memory[h] == table[h]) || (h in memory && r.memory[h] == memory[h]))
    && (forall h :: h in memory && h in table ==> h in r.memory)
    && (match r.phase
        case Inserting(todo) => todo <= table.Keys && forall h :: h in table && h !in todo ==> h in r.memory && r.memory[h] == table[h]
        case Retaining(todo) =>
          && (forall h :: h in table ==> h in r.memory && r.memory[h] == table[h])
          && (forall h :: h in r.memory && h !in todo ==> h in table)
        case Finished => r.memory == table)
  }

  lemma {:induction false} ReloadKeepsInv(memory: Keys, table: Keys, steps: seq<ReloadStep>)
    requires ReloadRun(memory, table, steps).Some?
    ensures ReloadInv(memory, table, ReloadRun(memory, table, steps).value)
  {
    if steps != [] { ReloadKeepsInv(memory, table, steps[..|steps| - 1]); }
  }

  /** `validate_key` on a map as a reader sees it: None is a miss. */
  function Lookup(m: Keys, hash: string): Option<Entry> {
    if hash in m then Some(m[hash]) else None
  }

  /**
   At every single-key step, a key that was cached and is in the table is found, with its old or
   its new entry; and when the reload finishes the cache equals the table.
   */
  lemma NoTransientMiss(memory: Keys, table: Keys, steps: seq<ReloadStep>, hash: string)
    requires ReloadRun(memory, table, steps).Some?
    ensures var r := ReloadRun(memory, table, steps).value;
            && (hash in memory && hash in table ==>
                  Lookup(r.memory, hash) == Some(memory[hash]) || Lookup(r.memory, hash) == Some(table[hash]))
            && (r.phase.Finished? ==> r.memory == table)
  {
    ReloadKeepsInv(memory, table, steps);
  }

  lemma ReloadExtends(memory: Keys, table: Keys, steps: seq<ReloadStep>, step: ReloadStep)
    requires ReloadRun(memory, table, steps).Some?
    ensures ReloadRun(memory, table, steps + [step]) == ReloadApply(ReloadRun(memory, table, steps).value, step)
  {
    assert (steps + [step])[..|steps|] == steps;
  }

  lemma {:induction false} InsertsFinish(memory: Keys, table: Keys, steps: seq<ReloadStep>, todo: set<string>)
    returns (all: seq<ReloadStep>)
    requires ReloadRun(memory, table, steps).Some? && ReloadRun(memory, table, steps).value.phase == Inserting(todo)
    ensures ReloadRun(memory, table, all).Some? && ReloadRun(memory, table, all).value.phase == Inserting({})
    decreases |todo|
  {
    all := steps;
    if todo != {} {
      ReloadKeepsInv(memory, table, steps);
      var h :| h in todo;
      ReloadExtends(memory, table, steps, Insert(h));
      all := InsertsFinish(memory, table, steps + [Insert(h)], todo - {h});
    }
  }

  lemma {:induction false} VisitsFinish(memory: Keys, table: Keys, steps: seq<ReloadStep>, todo: set<string>)
    returns (all: seq<ReloadStep>)
    requires ReloadRun(memory, table, steps).Some? && ReloadRun(memory, table, steps).value.phase == Retaining(todo)
    ensures ReloadRun(memory, table, all).Some? && ReloadRun(memory, table, all).value.phase == Retaining({})
    decreases |todo|
  {
    all := steps;
    if todo != {} {
      var h :| h in todo;
      ReloadExtends(memory, table, steps, Visit(h));
      all := VisitsFinish(memory, table, steps + [Visit(h)], todo - {h});
    }
  }

  /** A reload can always be carried to its end, from any cache and any table. */
  lemma ReloadCompletes(memory: Keys, table: Keys) returns (all: seq<ReloadStep>)
    ensures ReloadRun(memory, table, all).Some? && ReloadRun(memory, table, all).value.phase == Finished
  {
    all := InsertsFinish(memory, table, [], table.Keys);
    ReloadExtends(memory, table, all, StartRetain);
    all := all + [StartRetain];
    all := VisitsFinish(memory, table, all, ReloadRun(memory, table, all).value.phase.todo);
    ReloadExtends(memory, table, all, Finish);
    all := all + [Finish];
  }

  /** `validate_key`: a hit is answered at once, a miss after the reload. */
  function ValidateKey(memory: Keys, hash: string, reloaded: Keys): bool {
    match Lookup(memory, hash)
    case Some(e) => e.info.active
    case None => match Lookup(reloaded, hash) case Some(e) => e.info.active case None => false
  }

  /** A key is valid exactly when it is cached as active, or not cached and active in the table. */
  lemma KeyVerdict(memory: Keys, table: Keys, steps: seq<ReloadStep>, hash: string)
    requires ReloadRun(memory, table, steps).Some? && ReloadRun(memory, table, steps).value.phase == Finished
    ensures ValidateKey(memory, hash, ReloadRun(memory, table, steps).value.memory) <==>
            if hash in memory then memory[hash].info.active else hash in table && table[hash].info.active
  {
    ReloadKeepsInv(memory, table, steps);
  }

  // ---------------------------------------------------------------------------
  // The table
  // ---------------------------------------------------------------------------

  /** The two tables of the database: ciphertexts and metadata, both keyed by hash. */
  datatype Db = Db(keys: map<string, string>, infos: map<string, Info>)

  /** A row whose metadata is missing is kept, with a new identifier and a permissive default. */
  function InfoOf(db: Db, hash: string, newId: string, now: int): Info {
    if hash in db.infos then db.infos[hash] else Info(newId, "Migrated Key", now, ["*"], true)
  }

  /** `load_from_db`: rows that fail to decrypt are skipped. */
  function LoadFromDb(db: Db, decrypts: string -> bool, newId: string -> string, now: int): Keys {
    map h | h in db.keys && decrypts(db.keys[h]) :: Entry(db.keys[h], InfoOf(db, h, newId(h), now))
  }

  /** The rows of `doomed` still to be removed; all others of the key table are gone, with their metadata. */
  ghost predicate Clearing(db: Db, now: Db, doomed: set<string>) {
    && (forall h :: h in now.keys <==> h in doomed)
    && (forall h :: h in now.infos <==> h in db.infos && (h !in db.keys || h in doomed))
  }

  lemma ClearStep(db: Db, now: Db, doomed: set<string>, h: string)
    requires Clearing(db, now, doomed) && doomed <= db.keys.Keys && h in doomed
    ensures Clearing(db, Db(now.keys - {h}, now.infos - {h}), doomed - {h})
  {
  }

  /** The cached keys but those of `todo` are written; metadata of other keys is as in `cleared`. */
  ghost predicate Writing(cleared: Db, now: Db, memory: Keys, todo: set<string>) {
    && (forall h :: h in now.keys <==> h in memory && h !in todo)
    && (forall h :: h in now.keys ==> RowIs(now, h, memory))
    && (forall h :: h !in memory ==> (h in now.infos <==> h in cleared.infos))
  }

  ghost predicate RowIs(db: Db, h: string, memory: Keys) {
    && h in memory && h in db.keys && db.keys[h] == memory[h].encrypted
    && h in db.infos && db.infos[h] == memory[h].info
  }

  lemma WriteStep(cleared: Db, now: Db, memory: Keys, todo: set<string>, h: string)
    requires Writing(cleared, now, memory, todo) && h in todo && h in memory
    ensures Writing(cleared, Db(now.keys[h := memory[h].encrypted], now.infos[h := memory[h].info]), memory, todo - {h})
  {
  }

  /** `save_to_db`: clear the listed rows, then write every cached key; metadata without a key stays. */
  method SaveToDb(db: Db, memory: Keys) returns (saved: Db)
    ensures saved.keys.Keys == memory.Keys
    ensures forall h :: h in memory ==>
      saved.keys[h] == memory[h].encrypted && h in saved.infos && saved.infos[h] == memory[h].info
    ensures forall h :: h !in memory ==> (h in saved.infos <==> h in db.infos && h !in db.keys)
  {
    saved := ClearRows(db);
    ghost var cleared := saved;
    var todo := memory.Keys;
    assert Writing(cleared, saved, memory, todo);
    while todo != {}
      invariant todo <= memory.Keys && Writing(cleared, saved, memory, todo)
      decreases |todo|
    {
      hide Writing;
      var h :| h in todo;
      WriteStep(cleared, saved, memory, todo, h);
      saved := Db(saved.keys[h := memory[h].encrypted], saved.infos[h := memory[h].info]);
      todo := todo - {h};
    }
    assert forall h :: h in memory ==> RowIs(saved, h, memory);
  }

  method ClearRows(db: Db) returns (cleared: Db)
    ensures forall h :: h !in cleared.keys
    ensures forall h :: h in cleared.infos <==> h in db.infos && h !in db.keys
  {
    cleared := db;
    var doomed := db.keys.Keys;
    while doomed != {}
      invariant doomed <= db.keys.Keys && Clearing(db, cleared, doomed)
      decreases |doomed|
    {
      hide Clearing;
      var h :| h in doomed;
      ClearStep(db, cleared, doomed, h);
      cleared := Db(cleared.keys - {h}, cleared.infos - {h});
      doomed := doomed - {h};
    }
  }

  /** A row of the key table that decrypts is loaded with its metadata, or with the permissive default. */
  lemma LoadedRow(db: Db, decrypts: string -> bool, newId: string -> string, now: int, h: string)
    ensures var loaded := LoadFromDb(db, decrypts, newId, now);
            && (h in loaded <==> h in db.keys && decrypts(db.keys[h]))
            && (h in loaded && h in db.infos ==> loaded[h] == Entry(db.keys[h], db.infos[h]))
            && (h in loaded && h !in db.infos ==>
                  loaded[h].info.active && loaded[h].info.permissions == ["*"] && loaded[h].info.createdAt == now)
  {
  }

  /** What a save leaves behind, a load gives back: exactly the cached keys that decrypt. */
  lemma LoadAfterSave(saved: Db, memory: Keys, decrypts: string -> bool, newId: string -> string, now: int)
    requires saved.keys.Keys == memory.Keys
    requires forall h :: h in memory ==>
      saved.keys[h] == memory[h].encrypted && h in saved.infos && saved.infos[h] == memory[h].info
    ensures LoadFromDb(saved, decrypts, newId, now) == map h | h in memory && decrypts(memory[h].encrypted) :: memory[h]
  {
    var loaded := LoadFromDb(saved, decrypts, newId, now);
    forall h | h in memory && decrypts(memory[h].encrypted) ensures h in loaded && loaded[h] == memory[h] {
      assert h in saved.keys;
    }
  }
}
