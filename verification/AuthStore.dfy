/**
 The durable user and session store (crates/heramind-api/src/auth_users.rs): two in-memory
 maps in front of two database tables. Every operation is one atomic step; each database
 transaction commits or fails as a whole, as the operation's arguments say.
 */
module AuthStore {
  import opened Basics

  const SESSION_SECONDS: int := 7 * 24 * 60 * 60
  const SKEW_SECONDS: int := 30
  const HEADER: string := "HS256.JWT"

  datatype Role = Admin | Member | Viewer

  datatype User = User(id: string, username: string, passwordHash: string, role: Role,
                       createdAt: int, lastLogin: Option<int>, active: bool)

  datatype Session = Session(userId: string, username: string, role: Role, createdAt: int, expiresAt: int)

  /** The middle part of a token: either not decodable, or a JSON object whose fields may be missing. */
  datatype Payload =
    | Unreadable(text: string)
    | Json(sub: Option<string>, username: Option<string>, role: Option<string>, iat: Option<int>, exp: Option<int>)

  datatype Token =
    | NotThreeParts(text: string)
    | Compact(header: string, payload: Payload, signature: string)

  datatype AuthError =
    | InvalidCredentials | UserExists | UserNotFound | UserDisabled
    | InvalidToken | ExpiredToken | SessionRevoked | InvalidInput | DatabaseError

  /** HMAC under the persisted secret, the SHA-256 row key of a token, and password verification. */
  datatype Crypto = Crypto(
    sign: (string, Payload) -> string, key: Token -> string, verify: (string, string) -> bool)

  ghost predicate Injective(key: Token -> string) {
    forall t, u {:trigger key(t), key(u)} :: key(t) == key(u) ==> t == u
  }

  datatype Store = Store(users: map<string, User>, sessions: map<string, Session>,
                         userRows: map<string, User>, sessionRows: map<string, Session>)

  datatype Reply = Issued(token: Token) | Done | Refused(error: AuthError)

  /** The clock readings one login or registration takes, in order. */
  datatype Times = Times(start: int, mint: int, begun: int, expiry: int, reap: int)

  /** What the database does while the sessions of one user are being revoked. */
  datatype RevokeIo = OpenFails | ReadFails | Commits(first: bool, retry: bool)

  datatype Op =
    | Register(username: string, password: string, role: Role, id: string, hash: Option<string>,
               at: Times, userCommit: bool, sessionCommit: bool)
    | Login(username: string, password: string, at: Times, rowsReadable: bool, sessionCommit: bool)
    | Logout(token: Token, commit: bool)
    | DeleteUser(username: string, userCommit: bool, revoke: RevokeIo)
    | ChangePassword(username: string, current: string, next: string, hash: Option<string>,
                     userCommit: bool, revoke: RevokeIo)
    | Restart(now: int, usersReadable: bool, sessionsReadable: bool, cleanupCommit: bool)

  // ---------------------------------------------------------------------------
  // Tokens
  // ---------------------------------------------------------------------------

  function RoleName(r: Role): string {
    match r case Admin => "admin" case Member => "user" case Viewer => "viewer"
  }

  function ParseRole(s: string): Option<Role> {
    if s == "admin" then Some(Admin) else if s == "user" then Some(Member)
    else if s == "viewer" then Some(Viewer) else None
  }

  function Or<T>(o: Option<T>, default: T): T {
    if o.Some? then o.value else default
  }

  function Mint(c: Crypto, user: User, now: int): Token {
    var p := Json(Some(user.id), Some(user.username), Some(RoleName(user.role)),
                  Some(now), Some(now + SESSION_SECONDS));
    Compact(HEADER, p, c.sign(HEADER, p))
  }

  function ExpiryOf(p: Payload): int
    requires p.Json?
  {
    Or(p.exp, 0)
  }

  function NameOf(t: Token): string {
    if t.Compact? && t.payload.Json? then Or(t.payload.username, "") else ""
  }

  function SessionOf(p: Payload): Session
    requires p.Json?
  {
    Session(Or(p.sub, ""), Or(p.username, ""), Or(ParseRole(Or(p.role, "user")), Member), Or(p.iat, 0), ExpiryOf(p))
  }

  /** `validate_token`: signature, then expiry with leeway, then the allowlist. */
  function Validate(c: Crypto, s: Store, t: Token, now: int): Result<Session, AuthError> {
    if t.NotThreeParts? then Err(InvalidToken)
    else if t.signature != c.sign(t.header, t.payload) then Err(InvalidToken)
    else if t.payload.Unreadable? then Err(InvalidToken)
    else if ExpiryOf(t.payload) + SKEW_SECONDS < now then Err(ExpiredToken)
    else if c.key(t) !in s.sessions then Err(SessionRevoked)
    else Ok(SessionOf(t.payload))
  }

  // ---------------------------------------------------------------------------
  // Steps
  // ---------------------------------------------------------------------------

  function Unexpired(m: map<string, Session>, now: int): map<string, Session> {
    map k | k in m && m[k].expiresAt + SKEW_SECONDS > now :: m[k]
  }

  function WithoutUser(m: map<string, Session>, username: string): map<string, Session> {
    map k | k in m && m[k].username != username :: m[k]
  }

  /** Rows after `delete_user_sessions_from_db`, and the success it reports. */
  function RevokeRows(rows: map<string, Session>, username: string, io: RevokeIo): (map<string, Session>, bool) {
    match io
    case OpenFails => (rows, false)
    case ReadFails => (rows, true)
    case Commits(first, retry) =>
      if WithoutUser(rows, username) == rows then (rows, true)
      else if first || retry then (WithoutUser(rows, username), true)
      else (rows, false)
  }

  function Revoke(s: Store, username: string, io: RevokeIo): Store {
    s.(sessions := WithoutUser(s.sessions, username), sessionRows := RevokeRows(s.sessionRows, username, io).0)
  }

  function SaveIf<V>(commit: bool, rows: map<string, V>, key: string, v: V): map<string, V> {
    if commit then rows[key := v] else rows
  }

  function DoRegister(c: Crypto, s: Store, op: Op): (Store, Reply)
    requires op.Register?
  {
    if |op.username| < 3 || |op.password| < 6 then (s, Refused(InvalidInput))
    else if op.username in s.users then (s, Refused(UserExists))
    else if op.hash.None? then (s, Refused(InvalidInput))
    else if !op.userCommit then (s, Refused(DatabaseError))
    else
      var user := User(op.id, op.username, op.hash.value, op.role, op.at.start, None, true);
      var token := Mint(c, user, op.at.mint);
      var info := Session(user.id, user.username, user.role, op.at.begun, op.at.expiry + SESSION_SECONDS);
      (Store(s.users[op.username := user], s.sessions[c.key(token) := info], s.userRows[op.username := user],
             SaveIf(op.sessionCommit, s.sessionRows, c.key(token), info)),
       Issued(token))
  }

  /** The row that rescues a login whose cached hash is stale, if there is one. */
  function Rescue(c: Crypto, s: Store, op: Op): Option<User>
    requires op.Login? && op.username in s.users
  {
    if op.rowsReadable && op.username in s.userRows
       && s.userRows[op.username].passwordHash != s.users[op.username].passwordHash
       && c.verify(op.password, s.userRows[op.username].passwordHash)
    then Some(s.userRows[op.username]) else None
  }

  function DoLogin(c: Crypto, s: Store, op: Op): (Store, Reply)
    requires op.Login?
  {
    if op.username !in s.users then (s, Refused(InvalidCredentials))
    else
      var user := s.users[op.username];
      if !user.active then (s, Refused(UserDisabled))
      else if c.verify(op.password, user.passwordHash) then (OpenSession(c, s, op, user, user.passwordHash))
      else
        match Rescue(c, s, op)
        case None => (s, Refused(InvalidCredentials))
        case Some(row) => OpenSession(c, s, op, row, row.passwordHash)
  }

  /** The tail of `login`: `who` supplies the session's identity, the cache supplies the token's. */
  function OpenSession(c: Crypto, s: Store, op: Op, who: User, hash: string): (Store, Reply)
    requires op.Login? && op.username in s.users
  {
    var user := s.users[op.username].(passwordHash := hash, lastLogin := Some(op.at.start));
    var token := Mint(c, user, op.at.mint);
    var info := Session(who.id, op.username, who.role, op.at.begun, op.at.expiry + SESSION_SECONDS);
    (s.(users := s.users[op.username := user],
        sessions := Unexpired(s.sessions[c.key(token) := info], op.at.reap),
        sessionRows := SaveIf(op.sessionCommit, s.sessionRows, c.key(token), info)),
     Issued(token))
  }

  function DoLogout(c: Crypto, s: Store, op: Op): (Store, Reply)
    requires op.Logout?
  {
    var k := c.key(op.token);
    (s.(sessions := s.sessions - {k}, sessionRows := if op.commit then s.sessionRows - {k} else s.sessionRows), Done)
  }

  function DoDelete(s: Store, op: Op): (Store, Reply)
    requires op.DeleteUser?
  {
    if op.username !in s.users then (s, Refused(UserNotFound))
    else if !op.userCommit then (s, Refused(DatabaseError))
    else
      var s' := s.(users := s.users - {op.username}, userRows := s.userRows - {op.username});
      (Revoke(s', op.username, op.revoke), Done)
  }

  function DoChange(c: Crypto, s: Store, op: Op): (Store, Reply)
    requires op.ChangePassword?
  {
    if |op.next| < 6 then (s, Refused(InvalidInput))
    else if op.username !in s.users then (s, Refused(UserNotFound))
    else if !c.verify(op.current, s.users[op.username].passwordHash) then (s, Refused(InvalidCredentials))
    else if op.hash.None? then (s, Refused(InvalidInput))
    else if !op.userCommit then (s, Refused(DatabaseError))
    else
      var user := s.users[op.username].(passwordHash := op.hash.value);
      var s' := s.(users := s.users[op.username := user], userRows := s.userRows[user.username := user]);
      (Revoke(s', op.username, op.revoke), Done)
  }

  /** A new process: both maps are rebuilt from the tables, expired rows are purged. */
  function DoRestart(s: Store, op: Op): (Store, Reply)
    requires op.Restart?
  {
    (Store(if op.usersReadable then s.userRows else map[],
           if op.sessionsReadable then Unexpired(s.sessionRows, op.now) else map[],
           s.userRows,
           if op.sessionsReadable && op.cleanupCommit then Unexpired(s.sessionRows, op.now) else s.sessionRows),
     Done)
  }

  function Step(c: Crypto, s: Store, op: Op): (Store, Reply) {
    match op
    case Register(_, _, _, _, _, _, _, _) => DoRegister(c, s, op)
    case Login(_, _, _, _, _) => DoLogin(c, s, op)
    case Logout(_, _) => DoLogout(c, s, op)
    case DeleteUser(_, _, _) => DoDelete(s, op)
    case ChangePassword(_, _, _, _, _, _) => DoChange(c, s, op)
    case Restart(_, _, _, _) => DoRestart(s, op)
  }

  const EMPTY: Store := Store(map[], map[], map[], map[])

  /** The store after a run of operations from a fresh installation. */
  function Run(c: Crypto, ops: seq<Op>): Store {
    if ops == [] then EMPTY
    else Step(c, Run(c, ops[..|ops| - 1]), ops[|ops| - 1]).0
  }

  /** One operation and the answer it got. */
  datatype Entry = Entry(op: Op, reply: Reply)

  /** The answered operations of a run: all that an observer of the store sees. */
  function Log(c: Crypto, ops: seq<Op>): (log: seq<Entry>)
    ensures |log| == |ops|
  {
    if ops == [] then []
    else
      var front, op := ops[..|ops| - 1], ops[|ops| - 1];
      Log(c, front) + [Entry(op, Step(c, Run(c, front), op).1)]
  }

  // ---------------------------------------------------------------------------
  // The meaning of a run: what became of a token
  // ---------------------------------------------------------------------------

  /** Leaked: removed from memory, but the row may survive. Resurrected: a restart followed that. */
  datatype Fate = Gone | Live | Leaked | Resurrected

  /** Whether an operation, with its reply, removes token `t`. */
  predicate Removes(e: Entry, t: Token) {
    match e.op
    case Logout(u, _) => u == t
    case DeleteUser(name, _, _) => e.reply == Done && name == NameOf(t)
    case ChangePassword(name, _, _, _, _, _) => e.reply == Done && name == NameOf(t)
    case _ => false
  }

  predicate RevokeCommits(io: RevokeIo) {
    io.Commits? && (io.first || io.retry)
  }

  /** Whether the rows of a removal are certainly gone from the table. */
  predicate RemovalCommits(op: Op) {
    match op
    case Logout(_, commit) => commit
    case DeleteUser(_, _, io) => RevokeCommits(io)
    case ChangePassword(_, _, _, _, _, io) => RevokeCommits(io)
    case _ => true
  }

  function NextFate(f: Fate, e: Entry, t: Token): Fate {
    if e.reply == Issued(t) then Live
    else if Removes(e, t) then (if RemovalCommits(e.op) || f == Gone then Gone else Leaked)
    else if e.op.Restart? && f == Leaked then Resurrected
    else f
  }

  /** A token's fate, read off the log alone. */
  function FateIn(log: seq<Entry>, t: Token): Fate {
    if log == [] then Gone
    else NextFate(FateIn(log[..|log| - 1], t), log[|log| - 1], t)
  }

  // ---------------------------------------------------------------------------
  // Users: the cache and the table agree
  // ---------------------------------------------------------------------------

  ghost predicate SameUser(u: User, v: User) {
    u.(lastLogin := None) == v.(lastLogin := None)
  }

  ghost predicate UsersAgree(s: Store) {
    && s.users.Keys == s.userRows.Keys
    && (forall name :: name in s.users ==> SameUser(s.users[name], s.userRows[name]) && s.users[name].username == name)
  }

  ghost predicate UsersReadable(op: Op) {
    op.Restart? ==> op.usersReadable
  }

  lemma StepKeepsUsersAgreeing(c: Crypto, s: Store, op: Op)
    requires UsersAgree(s) && UsersReadable(op)
    ensures UsersAgree(Step(c, s, op).0)
  {
  }

  /** Whatever commits fail, memory and table agree on every user field except `last_login`. */
  lemma {:induction false} UsersAlwaysAgree(c: Crypto, ops: seq<Op>)
    requires forall i :: 0 <= i < |ops| ==> UsersReadable(ops[i])
    ensures UsersAgree(Run(c, ops))
  {
    if ops != [] {
      UsersAlwaysAgree(c, ops[..|ops| - 1]);
      StepKeepsUsersAgreeing(c, Run(c, ops[..|ops| - 1]), ops[|ops| - 1]);
    }
  }

  /** A refused operation leaves every user in both layers, and every session, untouched. */
  lemma RefusalChangesNothing(c: Crypto, s: Store, op: Op)
    requires Step(c, s, op).1.Refused?
    ensures Step(c, s, op).0 == s
  {
  }

  /** After any restart that can read the users, every login is answered exactly as before it. */
  lemma RestartKeepsLoginOutcomes(c: Crypto, ops: seq<Op>, restart: Op, login: Op)
    requires forall i :: 0 <= i < |ops| ==> UsersReadable(ops[i])
    requires restart.Restart? && restart.usersReadable && login.Login?
    ensures DoLogin(c, Run(c, ops + [restart]), login).1 == DoLogin(c, Run(c, ops), login).1
  {
    UsersAlwaysAgree(c, ops);
    assert (ops + [restart])[..|ops|] == ops;
    var s := Run(c, ops);
    assert Run(c, ops + [restart]) == DoRestart(s, restart).0;
    assert login.username in s.users ==> SameUser(s.users[login.username], s.userRows[login.username]);
  }

  /** The table after the offline command has given a user another password hash. */
  function OfflineReset(s: Store, username: string, hash: string): Store
    requires username in s.userRows
  {
    s.(userRows := s.userRows[username := s.userRows[username].(passwordHash := hash)])
  }

  /**
   After an offline reset the new password logs in at once, without a restart; and that login brings
   the cache back in line with the table exactly when the password does not also match the old hash.
   */
  lemma OfflineResetTakesEffect(c: Crypto, ops: seq<Op>, login: Op, hash: string)
    requires forall i :: 0 <= i < |ops| ==> UsersReadable(ops[i])
    requires login.Login? && login.rowsReadable && login.username in Run(c, ops).userRows
    requires Run(c, ops).userRows[login.username].active && c.verify(login.password, hash)
    ensures var stale := Run(c, ops).userRows[login.username].passwordHash;
            var (s', reply) := DoLogin(c, OfflineReset(Run(c, ops), login.username, hash), login);
            reply.Issued? && (UsersAgree(s') <==> hash == stale || !c.verify(login.password, stale))
  {
    UsersAlwaysAgree(c, ops);
    var name, s := login.username, Run(c, ops);
    assert SameUser(s.users[name], s.userRows[name]);
    var reset := OfflineReset(s, name, hash);
    var after := DoLogin(c, reset, login).0;
    assert after.users.Keys == after.userRows.Keys;
    assert name in after.users;
    assert SameUser(after.users[name], after.userRows[name]) <==> after.users[name].passwordHash == hash;
  }

  // ---------------------------------------------------------------------------
  // Sessions, with any failures: acceptance needs an issue or a resurrection
  // ---------------------------------------------------------------------------

  ghost predicate Named(s: Store) {
    && (forall name :: name in s.users ==> s.users[name].username == name)
    && (forall name :: name in s.userRows ==> s.userRows[name].username == name)
  }

  ghost predicate Tracked(c: Crypto, s: Store, t: Token, f: Fate) {
    var k := c.key(t);
    && (k in s.sessions ==> (f == Live || f == Resurrected) && s.sessions[k].username == NameOf(t))
    && (k in s.sessionRows ==> f != Gone && s.sessionRows[k].username == NameOf(t))
  }

  lemma RegisterTracks(c: Crypto, s: Store, op: Op, t: Token, f: Fate)
    requires op.Register?
    requires Injective(c.key) && Named(s) && Tracked(c, s, t, f)
    ensures Named(Step(c, s, op).0)
    ensures Tracked(c, Step(c, s, op).0, t, NextFate(f, Entry(op, Step(c, s, op).1), t))
  {
    var reply := Step(c, s, op).1;
    if reply.Issued? && reply.token != t {
      assert c.key(reply.token) != c.key(t);
    }
  }

  lemma LoginTracks(c: Crypto, s: Store, op: Op, t: Token, f: Fate)
    requires op.Login?
    requires Injective(c.key) && Named(s) && Tracked(c, s, t, f)
    ensures Named(Step(c, s, op).0)
    ensures Tracked(c, Step(c, s, op).0, t, NextFate(f, Entry(op, Step(c, s, op).1), t))
  {
    var reply := Step(c, s, op).1;
    if reply.Issued? && reply.token != t {
      assert c.key(reply.token) != c.key(t);
    }
  }

  lemma LogoutTracks(c: Crypto, s: Store, op: Op, t: Token, f: Fate)
    requires op.Logout?
    requires Injective(c.key) && Named(s) && Tracked(c, s, t, f)
    ensures Named(Step(c, s, op).0)
    ensures Tracked(c, Step(c, s, op).0, t, NextFate(f, Entry(op, Step(c, s, op).1), t))
  {
    if op.token != t {
      assert c.key(op.token) != c.key(t);
    }
  }

  lemma RevocationTracks(c: Crypto, s: Store, name: string, io: RevokeIo, t: Token, f: Fate)
    requires Tracked(c, s, t, f)
    ensures Tracked(c, Revoke(s, name, io), t,
                    if name != NameOf(t) then f else if RevokeCommits(io) || f == Gone then Gone else Leaked)
  {
  }

  lemma DeleteTracks(c: Crypto, s: Store, op: Op, t: Token, f: Fate)
    requires op.DeleteUser?
    requires Named(s) && Tracked(c, s, t, f)
    ensures Named(Step(c, s, op).0)
    ensures Tracked(c, Step(c, s, op).0, t, NextFate(f, Entry(op, Step(c, s, op).1), t))
  {
    RevocationTracks(c, s, op.username, op.revoke, t, f);
  }

  lemma ChangeTracks(c: Crypto, s: Store, op: Op, t: Token, f: Fate)
    requires op.ChangePassword?
    requires Named(s) && Tracked(c, s, t, f)
    ensures Named(Step(c, s, op).0)
    ensures Tracked(c, Step(c, s, op).0, t, NextFate(f, Entry(op, Step(c, s, op).1), t))
  {
    RevocationTracks(c, s, op.username, op.revoke, t, f);
  }

  lemma StepTracks(c: Crypto, s: Store, op: Op, t: Token, f: Fate)
    requires Injective(c.key) && Named(s) && Tracked(c, s, t, f)
    ensures Named(Step(c, s, op).0)
    ensures Tracked(c, Step(c, s, op).0, t, NextFate(f, Entry(op, Step(c, s, op).1), t))
  {
    match op
    case Register(_, _, _, _, _, _, _, _) => RegisterTracks(c, s, op, t, f);
    case Login(_, _, _, _, _) => LoginTracks(c, s, op, t, f);
    case Logout(_, _) => LogoutTracks(c, s, op, t, f);
    case DeleteUser(_, _, _) => DeleteTracks(c, s, op, t, f);
    case ChangePassword(_, _, _, _, _, _) => ChangeTracks(c, s, op, t, f);
    case Restart(_, _, _, _) =>
  }

  lemma {:induction false} RunTracks(c: Crypto, ops: seq<Op>, t: Token)
    requires Injective(c.key)
    ensures Named(Run(c, ops)) && Tracked(c, Run(c, ops), t, FateIn(Log(c, ops), t))
  {
    if ops != [] {
      var front, op := ops[..|ops| - 1], ops[|ops| - 1];
      RunTracks(c, front, t);
      StepTracks(c, Run(c, front), op, t, FateIn(Log(c, front), t));
      assert Log(c, ops)[..|front|] == Log(c, front);
    }
  }

  ghost predicate IssuedAndKept(log: seq<Entry>, t: Token, i: int) {
    && 0 <= i < |log| && log[i].reply == Issued(t)
    && (forall j :: i < j < |log| ==> !Removes(log[j], t))
  }

  /** The last issue of `t` is at `i`, and since then every removal failed to commit, the last one at `d`. */
  ghost predicate LeakedSince(log: seq<Entry>, t: Token, i: int, d: int) {
    && 0 <= i < d < |log| && log[i].reply == Issued(t) && Removes(log[d], t)
    && (forall j :: i < j < |log| ==> log[j].reply != Issued(t))
    && (forall j :: i < j < |log| && Removes(log[j], t) ==> !RemovalCommits(log[j].op) && j <= d)
  }

  /** Removed without a commit, then brought back by the restart at `r`, and not removed since. */
  ghost predicate LeakedThenRestarted(log: seq<Entry>, t: Token, i: int, d: int, r: int) {
    LeakedSince(log, t, i, d) && d < r < |log| && log[r].op.Restart?
  }

  ghost predicate NoRestartSince(log: seq<Entry>, d: int) {
    forall j :: 0 <= d < j < |log| ==> !log[j].op.Restart?
  }

  /** A live token was issued by some operation, and nothing after that operation removed it. */
  lemma {:induction false} LiveWasIssued(log: seq<Entry>, t: Token) returns (i: nat)
    requires FateIn(log, t) == Live
    ensures IssuedAndKept(log, t, i)
  {
    var m := |log| - 1;
    if log[m].reply == Issued(t) {
      i := m;
    } else {
      i := LiveWasIssued(log[..m], t);
      assert forall j :: 0 <= j < m ==> log[..m][j] == log[j];
    }
  }

  lemma {:induction false} KeptIsLive(log: seq<Entry>, t: Token, i: int)
    requires IssuedAndKept(log, t, i)
    ensures FateIn(log, t) == Live
  {
    if i < |log| - 1 { KeptIsLive(log[..|log| - 1], t, i); }
  }

  lemma {:induction false} LeakedWasRemoved(log: seq<Entry>, t: Token) returns (i: nat, d: nat)
    requires FateIn(log, t) == Leaked
    ensures LeakedSince(log, t, i, d) && NoRestartSince(log, d)
  {
    var m := |log| - 1;
    var front := log[..m];
    assert forall j :: 0 <= j < m ==> front[j] == log[j];
    if !Removes(log[m], t) || FateIn(front, t) == Leaked {
      i, d := LeakedWasRemoved(front, t);
    } else if FateIn(front, t) == Live {
      i := LiveWasIssued(front, t);
      i := LastIssue(front, t, i);
    } else {
      var r: nat;
      i, d, r := ResurrectedWasLeaked(front, t);
    }
    if Removes(log[m], t) { d := m; }
  }

  /** The last issue of a token that some operation issued. */
  lemma {:induction false} LastIssue(log: seq<Entry>, t: Token, i: nat) returns (last: nat)
    requires i < |log| && log[i].reply == Issued(t)
    ensures i <= last < |log| && log[last].reply == Issued(t)
    ensures forall j :: last < j < |log| ==> log[j].reply != Issued(t)
  {
    var m := |log| - 1;
    if log[m].reply == Issued(t) {
      last := m;
    } else {
      last := LastIssue(log[..m], t, i);
    }
  }

  lemma {:induction false} ResurrectedWasLeaked(log: seq<Entry>, t: Token) returns (i: nat, d: nat, r: nat)
    requires FateIn(log, t) == Resurrected
    ensures LeakedThenRestarted(log, t, i, d, r)
  {
    var m := |log| - 1;
    var front := log[..m];
    assert forall j :: 0 <= j < m ==> front[j] == log[j];
    if FateIn(front, t) == Leaked {
      i, d := LeakedWasRemoved(front, t);
      r := m;
    } else {
      i, d, r := ResurrectedWasLeaked(front, t);
    }
  }

  /** Conversely, the pattern in the log decides the fate: a restart since the last removal or none. */
  lemma {:induction false} LeakDecidesFate(log: seq<Entry>, t: Token, i: nat, d: nat)
    requires LeakedSince(log, t, i, d)
    ensures FateIn(log, t) == if NoRestartSince(log, d) then Leaked else Resurrected
  {
    var m := |log| - 1;
    var front := log[..m];
    assert forall j :: 0 <= j < m ==> front[j] == log[j];
    if d < m {
      LeakDecidesFate(front, t, i, d);
      assert NoRestartSince(log, d) <==> NoRestartSince(front, d) && !log[m].op.Restart?;
    } else {
      RemovalLeaves(front, t, i);
    }
  }

  /** Once issued and never removed with a commit, a token is not gone. */
  lemma {:induction false} RemovalLeaves(log: seq<Entry>, t: Token, i: nat)
    requires i < |log| && log[i].reply == Issued(t)
    requires forall j :: i < j < |log| && Removes(log[j], t) ==> !RemovalCommits(log[j].op)
    ensures FateIn(log, t) != Gone
  {
    if i < |log| - 1 { RemovalLeaves(log[..|log| - 1], t, i); }
  }

  /** Both fates of a token that can be accepted, each by an exact pattern in the log. */
  lemma FateExplained(log: seq<Entry>, t: Token)
    ensures FateIn(log, t) == Live <==> exists i :: IssuedAndKept(log, t, i)
    ensures FateIn(log, t) == Resurrected <==> exists i, d, r :: LeakedThenRestarted(log, t, i, d, r)
  {
    if FateIn(log, t) == Live {
      var i := LiveWasIssued(log, t);
    } else if exists i :: IssuedAndKept(log, t, i) {
      var i :| IssuedAndKept(log, t, i);
      KeptIsLive(log, t, i);
    }
    if FateIn(log, t) == Resurrected {
      var i, d, r := ResurrectedWasLeaked(log, t);
    } else if exists i, d, r :: LeakedThenRestarted(log, t, i, d, r) {
      var i, d, r :| LeakedThenRestarted(log, t, i, d, r);
      LeakDecidesFate(log, t, i, d);
    }
  }

  /**
   With arbitrary failures: an accepted token was issued and not removed since; or, since its last
   issue, it was removed, no removal committed, and a restart came after the last of them.
   */
  lemma AcceptedMeansIssuedOrResurrected(c: Crypto, ops: seq<Op>, log: seq<Entry>, t: Token, now: int)
    requires Injective(c.key) && log == Log(c, ops) && Validate(c, Run(c, ops), t, now).Ok?
    ensures || (exists i :: IssuedAndKept(log, t, i))
            || (exists i, d, r :: LeakedThenRestarted(log, t, i, d, r))
  {
    RunTracks(c, ops, t);
    FateExplained(log, t);
  }

  // ---------------------------------------------------------------------------
  // Sessions, with no failures and a monotone clock: acceptance is the log's verdict
  // ---------------------------------------------------------------------------

  ghost predicate Reliable(op: Op) {
    match op
    case Register(_, _, _, _, _, _, _, sessionCommit) => sessionCommit
    case Login(_, _, _, _, sessionCommit) => sessionCommit
    case Restart(_, usersReadable, sessionsReadable, _) => usersReadable && sessionsReadable
    case _ => RemovalCommits(op)
  }

  /** The operation's clock readings are in order and none lies before `clock`. */
  ghost predicate Timed(op: Op, clock: int) {
    match op
    case Register(_, _, _, _, _, at, _, _) => clock <= at.start <= at.mint <= at.begun <= at.expiry
    case Login(_, _, at, _, _) => clock <= at.start <= at.mint <= at.begun <= at.expiry <= at.reap
    case Restart(now, _, _, _) => clock <= now
    case _ => true
  }

  ghost function ClockAfter(op: Op, clock: int): int {
    match op
    case Register(_, _, _, _, _, at, _, _) => at.expiry
    case Login(_, _, at, _, _) => at.reap
    case Restart(now, _, _, _) => now
    case _ => clock
  }

  /** The last clock reading of a run that started at time `start`. */
  ghost function Clock(ops: seq<Op>, start: int): int {
    if ops == [] then start else ClockAfter(ops[|ops| - 1], Clock(ops[..|ops| - 1], start))
  }

  /** A run whose session writes all commit and whose clock never goes back. */
  ghost predicate Orderly(ops: seq<Op>, start: int) {
    ops == [] || (var m := |ops| - 1;
                  Orderly(ops[..m], start) && Reliable(ops[m]) && Timed(ops[m], Clock(ops[..m], start)))
  }

  /** Memory is a subset of the table, and rows missing from memory are past their grace. */
  ghost predicate CacheAgrees(s: Store, clock: int) {
    && (forall k :: k in s.sessions ==> k in s.sessionRows && s.sessionRows[k] == s.sessions[k])
    && (forall k :: k in s.sessionRows && k !in s.sessions ==> s.sessionRows[k].expiresAt + SKEW_SECONDS <= clock)
  }

  ghost predicate Minted(c: Crypto, t: Token) {
    t.Compact? && t.payload.Json? && t.signature == c.sign(t.header, t.payload)
  }

  /** What a token's fate promises about memory while the token is inside its grace. */
  ghost predicate Backed(c: Crypto, s: Store, t: Token, f: Fate, clock: int) {
    && (f == Live || f == Gone)
    && (f == Live ==>
          && Minted(c, t) && NameOf(t) in s.users
          && (ExpiryOf(t.payload) + SKEW_SECONDS <= clock
              || (c.key(t) in s.sessions && s.sessions[c.key(t)].expiresAt >= ExpiryOf(t.payload))))
  }

  /** A store that the log's verdict on `t` describes. */
  ghost predicate Consistent(c: Crypto, s: Store, t: Token, f: Fate, clock: int) {
    UsersAgree(s) && CacheAgrees(s, clock) && Tracked(c, s, t, f) && Backed(c, s, t, f, clock)
  }

  lemma IssueKeepsBacking(c: Crypto, s: Store, op: Op, t: Token, f: Fate, clock: int)
    requires (op.Register? || op.Login?) && Reliable(op) && Timed(op, clock)
    requires Injective(c.key) && Consistent(c, s, t, f, clock)
    ensures Backed(c, Step(c, s, op).0, t, NextFate(f, Entry(op, Step(c, s, op).1), t), ClockAfter(op, clock))
  {
    var reply := Step(c, s, op).1;
    if reply.Issued? && reply.token != t {
      assert c.key(reply.token) != c.key(t);
    }
  }

  lemma RemovalKeepsBacking(c: Crypto, s: Store, op: Op, t: Token, f: Fate, clock: int)
    requires !op.Register? && !op.Login? && Reliable(op) && Timed(op, clock)
    requires Injective(c.key) && Consistent(c, s, t, f, clock)
    ensures Backed(c, Step(c, s, op).0, t, NextFate(f, Entry(op, Step(c, s, op).1), t), ClockAfter(op, clock))
  {
    if op.Logout? && op.token != t {
      assert c.key(op.token) != c.key(t);
    }
  }

  lemma IssueKeepsCacheAgreeing(c: Crypto, s: Store, op: Op, clock: int)
    requires (op.Register? || op.Login?) && Reliable(op) && Timed(op, clock) && CacheAgrees(s, clock)
    ensures CacheAgrees(Step(c, s, op).0, ClockAfter(op, clock))
  {
  }

  lemma RemovalKeepsCacheAgreeing(c: Crypto, s: Store, op: Op, clock: int)
    requires !op.Register? && !op.Login? && Reliable(op) && Timed(op, clock) && CacheAgrees(s, clock)
    ensures CacheAgrees(Step(c, s, op).0, ClockAfter(op, clock))
  {
  }

  lemma StepKeepsConsistent(c: Crypto, s: Store, op: Op, t: Token, f: Fate, clock: int)
    requires Injective(c.key) && Named(s) && Reliable(op) && Timed(op, clock) && Consistent(c, s, t, f, clock)
    ensures Consistent(c, Step(c, s, op).0, t, NextFate(f, Entry(op, Step(c, s, op).1), t), ClockAfter(op, clock))
  {
    StepKeepsUsersAgreeing(c, s, op);
    StepTracks(c, s, op, t, f);
    if op.Register? || op.Login? {
      IssueKeepsCacheAgreeing(c, s, op, clock);
      IssueKeepsBacking(c, s, op, t, f, clock);
    } else {
      RemovalKeepsCacheAgreeing(c, s, op, clock);
      RemovalKeepsBacking(c, s, op, t, f, clock);
    }
  }

  /** Every orderly run keeps the cache a subset of the table, and memory in step with the log. */
  lemma {:induction false} OrderlyRun(c: Crypto, ops: seq<Op>, t: Token, start: int)
    requires Injective(c.key) && Orderly(ops, start)
    ensures Consistent(c, Run(c, ops), t, FateIn(Log(c, ops), t), Clock(ops, start))
  {
    if ops != [] {
      var front, op := ops[..|ops| - 1], ops[|ops| - 1];
      OrderlyRun(c, front, t, start);
      RunTracks(c, front, t);
      StepKeepsConsistent(c, Run(c, front), op, t, FateIn(Log(c, front), t), Clock(front, start));
      assert Log(c, ops)[..|front|] == Log(c, front);
    }
  }

  /**
   The two-layer store implements the log: inside its grace, a token is accepted exactly when
   some operation issued it and none removed it since, and then its user exists.
   */
  lemma VerdictIsLogVerdict(c: Crypto, ops: seq<Op>, log: seq<Entry>, t: Token, start: int, now: int)
    requires Injective(c.key) && log == Log(c, ops) && Orderly(ops, start) && Clock(ops, start) <= now
    requires t.Compact? && t.payload.Json? && ExpiryOf(t.payload) + SKEW_SECONDS > now
    ensures Validate(c, Run(c, ops), t, now).Ok? <==> exists i :: IssuedAndKept(log, t, i)
    ensures Validate(c, Run(c, ops), t, now).Ok? ==> NameOf(t) in Run(c, ops).users
  {
    OrderlyRun(c, ops, t, start);
    FateExplained(log, t);
  }

  /**
   A restart changes no verdict, on any token, except that a token validated at the very second
   its grace ends may turn from accepted into revoked: exactly when its session's own expiry, plus
   the grace, is not after the restart.
   */
  lemma RestartChangesNoVerdict(c: Crypto, ops: seq<Op>, restart: Op, t: Token, start: int, now: int)
    requires Injective(c.key) && Orderly(ops, start)
    requires restart.Restart? && Reliable(restart) && Clock(ops, start) <= restart.now <= now
    ensures var before, after := Validate(c, Run(c, ops), t, now), Validate(c, Run(c, ops + [restart]), t, now);
            || after == before
            || (t.Compact? && t.payload.Json? && ExpiryOf(t.payload) + SKEW_SECONDS == now
                && before.Ok? && after == Err(SessionRevoked))
    ensures var s := Run(c, ops);
            Validate(c, Run(c, ops + [restart]), t, now) != Validate(c, s, t, now)
            <==> Validate(c, s, t, now).Ok? && s.sessions[c.key(t)].expiresAt + SKEW_SECONDS <= restart.now
  {
    var ops' := ops + [restart];
    assert ops'[..|ops|] == ops;
    assert Clock(ops', start) == restart.now && Orderly(ops', start);
    OrderlyRun(c, ops, t, start);
    var s := Run(c, ops);
    assert Run(c, ops') == DoRestart(s, restart).0;
    assert c.key(t) in s.sessions ==> s.sessions[c.key(t)] == s.sessionRows[c.key(t)];
  }

  /** The exception is real: validator and boot loader disagree at expiry + 30. */
  lemma GraceBoundaryDiffers(c: Crypto, op: Op, restart: Op)
    requires op.Register? && op.userCommit && op.sessionCommit && op.hash.Some?
    requires |op.username| >= 3 && |op.password| >= 6 && op.at == Times(0, 0, 0, 0, 0)
    requires restart == Restart(SESSION_SECONDS + SKEW_SECONDS, true, true, true)
    ensures var t, now := Mint(c, User(op.id, op.username, op.hash.value, op.role, 0, None, true), 0), restart.now;
            Validate(c, Run(c, [op]), t, now).Ok? && Validate(c, Run(c, [op, restart]), t, now) == Err(SessionRevoked)
  {
    assert [op, restart][..1] == [op] && [op][..0] == [];
  }

  /** Without committed removals the second case does occur: a logged-out token comes back. */
  lemma UncommittedLogoutResurrects(c: Crypto, op: Op, now: int)
    requires op.Register? && op.userCommit && op.sessionCommit && op.hash.Some?
    requires |op.username| >= 3 && |op.password| >= 6 && op.at == Times(0, 0, 0, 0, 0) && 0 <= now < SESSION_SECONDS
    ensures var t := Mint(c, User(op.id, op.username, op.hash.value, op.role, 0, None, true), 0);
            && Validate(c, Run(c, [op, Logout(t, false)]), t, now) == Err(SessionRevoked)
            && Validate(c, Run(c, [op, Logout(t, false), Restart(now, true, true, true)]), t, now).Ok?
  {
    var t := Mint(c, User(op.id, op.username, op.hash.value, op.role, 0, None, true), 0);
    var ops := [op, Logout(t, false), Restart(now, true, true, true)];
    var out := [op, Logout(t, false)];
    assert ops[..2] == out && out[..1] == [op] && [op][..0] == [];
    var s := Run(c, [op]);
    assert Run(c, []) == EMPTY;
    assert s == DoRegister(c, EMPTY, op).0;
    assert Run(c, out) == s.(sessions := s.sessions - {c.key(t)});
    assert Run(c, ops).sessions == Unexpired(s.sessionRows, now);
  }

  // ---------------------------------------------------------------------------
  // The implementation
  // ---------------------------------------------------------------------------

  /** The store as the server holds it: the two caches and, behind them, the two tables. */
  class AuthUserState {
    const c: Crypto
    var users: map<string, User>
    var sessions: map<string, Session>
    var userRows: map<string, User>
    var sessionRows: map<string, Session>

    ghost function View(): Store
      reads this
    {
      Store(users, sessions, userRows, sessionRows)
    }

    /** Boot on the tables a previous process left behind. */
    constructor (c: Crypto, userRows: map<string, User>, sessionRows: map<string, Session>, op: Op)
      requires op.Restart?
      ensures this.c == c
      ensures View() == DoRestart(Store(map[], map[], userRows, sessionRows), op).0
    {
      this.c, this.userRows, this.sessionRows := c, userRows, sessionRows;
      users := if op.usersReadable then userRows else map[];
      sessions := map[];
      new;
      if op.sessionsReadable {
        LoadSessions(op.now, op.cleanupCommit);
      }
    }

    /** `load_sessions_from_db`: keep the unexpired rows, collect the others, purge those. */
    method LoadSessions(now: int, cleanupCommit: bool)
      requires sessions == map[]
      modifies this`sessions, this`sessionRows
      ensures sessions == Unexpired(old(sessionRows), now)
      ensures sessionRows == if cleanupCommit then Unexpired(old(sessionRows), now) else old(sessionRows)
    {
      var todo, expired: set<string> := sessionRows.Keys, {};
      while todo != {}
        invariant todo <= sessionRows.Keys && sessionRows == old(sessionRows)
        invariant forall k :: k in sessions <==>
          k in sessionRows && k !in todo && sessionRows[k].expiresAt + SKEW_SECONDS > now
        invariant forall k :: k in sessions ==> sessions[k] == sessionRows[k]
        invariant forall k :: k in expired <==>
          k in sessionRows && k !in todo && sessionRows[k].expiresAt + SKEW_SECONDS <= now
        decreases |todo|
      {
        var k :| k in todo;
        todo := todo - {k};
        if sessionRows[k].expiresAt + SKEW_SECONDS > now {
          sessions := sessions[k := sessionRows[k]];
        } else {
          expired := expired + {k};
        }
      }
      if cleanupCommit {
        sessionRows := sessionRows - expired;
      }
    }

    method ValidateToken(t: Token, now: int) returns (r: Result<Session, AuthError>)
      ensures r == Validate(c, View(), t, now)
    {
      if t.NotThreeParts? || t.signature != c.sign(t.header, t.payload) || t.payload.Unreadable? {
        return Err(InvalidToken);
      }
      var exp := Or(t.payload.exp, 0);
      if exp + SKEW_SECONDS < now {
        return Err(ExpiredToken);
      }
      if c.key(t) !in sessions {
        return Err(SessionRevoked);
      }
      r := Ok(SessionOf(t.payload));
    }

    /** `save_session_to_db`, best effort. */
    method SaveSession(key: string, info: Session, commit: bool)
      modifies this`sessionRows
      ensures sessionRows == SaveIf(commit, old(sessionRows), key, info)
    {
      if commit {
        sessionRows := sessionRows[key := info];
      }
    }

    method Register(op: Op) returns (reply: Reply)
      requires op.Register?
      modifies this
      ensures (View(), reply) == DoRegister(c, old(View()), op)
    {
      if |op.username| < 3 || |op.password| < 6 {
        return Refused(InvalidInput);
      }
      if op.username in users {
        return Refused(UserExists);
      }
      if op.hash.None? {
        return Refused(InvalidInput);
      }
      var user := User(op.id, op.username, op.hash.value, op.role, op.at.start, None, true);
      if !op.userCommit {
        return Refused(DatabaseError);
      }
      userRows := userRows[op.username := user];
      users := users[op.username := user];
      var token := Mint(c, user, op.at.mint);
      var info := Session(user.id, user.username, user.role, op.at.begun, op.at.expiry + SESSION_SECONDS);
      SaveSession(c.key(token), info, op.sessionCommit);
      sessions := sessions[c.key(token) := info];
      reply := Issued(token);
    }

    method Login(op: Op) returns (reply: Reply)
      requires op.Login?
      modifies this
      ensures (View(), reply) == DoLogin(c, old(View()), op)
    {
      if op.username !in users {
        return Refused(InvalidCredentials);
      }
      var user := users[op.username];
      if !user.active {
        return Refused(UserDisabled);
      }
      var who := user;
      if !c.verify(op.password, user.passwordHash) {
        if op.rowsReadable && op.username in userRows && userRows[op.username].passwordHash != user.passwordHash
           && c.verify(op.password, userRows[op.username].passwordHash) {
          who := userRows[op.username];
          user := user.(passwordHash := who.passwordHash);
          users := users[op.username := user];
        } else {
          return Refused(InvalidCredentials);
        }
      }
      user := user.(lastLogin := Some(op.at.start));
      users := users[op.username := user];
      var token := Mint(c, user, op.at.mint);
      var info := Session(who.id, op.username, who.role, op.at.begun, op.at.expiry + SESSION_SECONDS);
      SaveSession(c.key(token), info, op.sessionCommit);
      sessions := sessions[c.key(token) := info];
      sessions := Unexpired(sessions, op.at.reap);
      assert users == old(users)[op.username := user];
      reply := Issued(token);
    }

    method Logout(op: Op) returns (reply: Reply)
      requires op.Logout?
      modifies this`sessions, this`sessionRows
      ensures (View(), reply) == DoLogout(c, old(View()), op)
    {
      var key := c.key(op.token);
      if op.commit {
        sessionRows := sessionRows - {key};
      }
      sessions := sessions - {key};
      reply := Done;
    }

    /** `delete_user_sessions_from_db`: collect the user's rows, then remove them in at most two transactions. */
    method DeleteUserSessions(username: string, io: RevokeIo) returns (persisted: bool)
      modifies this`sessionRows
      ensures (sessionRows, persisted) == RevokeRows(old(sessionRows), username, io)
    {
      if io == OpenFails {
        return false;
      }
      var doomed: set<string> :=
        if io == ReadFails then {} else set k | k in sessionRows && sessionRows[k].username == username;
      if doomed == {} {
        assert io.Commits? ==> forall k :: k in sessionRows ==> k !in doomed;
        assert io.Commits? ==> WithoutUser(sessionRows, username) == sessionRows;
        return true;
      }
      var k :| k in doomed;
      assert k !in WithoutUser(sessionRows, username);
      for attempt := 0 to 2
        invariant sessionRows == old(sessionRows)
        invariant attempt > 0 ==> !io.first
        invariant attempt > 1 ==> !io.retry
      {
        if (if attempt == 0 then io.first else io.retry) {
          sessionRows := sessionRows - doomed;
          assert sessionRows == WithoutUser(old(sessionRows), username);
          return true;
        }
      }
      persisted := false;
    }

    /** `revoke_user_sessions`: clear memory, then the table. */
    method RevokeUserSessions(username: string, io: RevokeIo)
      modifies this`sessions, this`sessionRows
      ensures View() == Revoke(old(View()), username, io)
    {
      sessions := WithoutUser(sessions, username);
      var persisted := DeleteUserSessions(username, io);
    }

    method DeleteUser(op: Op) returns (reply: Reply)
      requires op.DeleteUser?
      modifies this
      ensures (View(), reply) == DoDelete(old(View()), op)
    {
      if op.username !in users {
        return Refused(UserNotFound);
      }
      if !op.userCommit {
        return Refused(DatabaseError);
      }
      userRows := userRows - {op.username};
      users := users - {op.username};
      RevokeUserSessions(op.username, op.revoke);
      reply := Done;
    }

    method ChangePassword(op: Op) returns (reply: Reply)
      requires op.ChangePassword?
      modifies this
      ensures (View(), reply) == DoChange(c, old(View()), op)
    {
      if |op.next| < 6 {
        return Refused(InvalidInput);
      }
      if op.username !in users {
        return Refused(UserNotFound);
      }
      var user := users[op.username];
      if !c.verify(op.current, user.passwordHash) {
        return Refused(InvalidCredentials);
      }
      if op.hash.None? {
        return Refused(InvalidInput);
      }
      var persisted := user.(passwordHash := op.hash.value);
      if !op.userCommit {
        return Refused(DatabaseError);
      }
      userRows := userRows[persisted.username := persisted];
      users := users[op.username := persisted];
      RevokeUserSessions(op.username, op.revoke);
      reply := Done;
    }
  }
}
