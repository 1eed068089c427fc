/**
 What the user store (crates/heramind-api/src/auth_users.rs) answers, read off the log of answered
 operations alone: accounts and their passwords, the reply to every operation, and the identity that
 every issued token carries.
 */
module AuthAccounts {
  import opened Basics
  import opened AuthStore

  // ---------------------------------------------------------------------------
  // Accounts in the log
  // ---------------------------------------------------------------------------

  /** An account as the log tells it; the last login is persisted only by a password change. */
  datatype Account = Account(id: string, hash: string, role: Role, createdAt: int,
                             lastLogin: Option<int>, storedLogin: Option<int>)

  /** The account of `name` after one more answered operation. */
  function NextAccount(a: Option<Account>, e: Entry, name: string): Option<Account> {
    match e.op
    case Register(n, _, role, id, hash, at, _, _) =>
      if n == name && e.reply.Issued? && hash.Some? then Some(Account(id, hash.value, role, at.start, None, None)) else a
    case Login(n, _, at, _, _) =>
      if n == name && e.reply.Issued? && a.Some? then Some(a.value.(lastLogin := Some(at.start))) else a
    case Logout(_, _) => a
    case DeleteUser(n, _, _) => if n == name && e.reply == Done then None else a
    case ChangePassword(n, _, _, hash, _, _) =>
      if n == name && e.reply == Done && hash.Some? && a.Some?
      then Some(a.value.(hash := hash.value, storedLogin := a.value.lastLogin)) else a
    case Restart(_, _, _, _) => if a.Some? then Some(a.value.(lastLogin := a.value.storedLogin)) else a
  }

  function AccountIn(log: seq<Entry>, name: string): Option<Account> {
    if log == [] then None else NextAccount(AccountIn(log[..|log| - 1], name), log[|log| - 1], name)
  }

  ghost predicate IsUser(u: User, a: Account, name: string, login: Option<int>) {
    u == User(a.id, name, a.hash, a.role, a.createdAt, login, true)
  }

  /** Both layers hold exactly the account that the log tells. */
  ghost predicate Recorded(s: Store, name: string, a: Option<Account>) {
    match a
    case None => name !in s.users && name !in s.userRows
    case Some(acc) =>
      && name in s.users && IsUser(s.users[name], acc, name, acc.lastLogin)
      && name in s.userRows && IsUser(s.userRows[name], acc, name, acc.storedLogin)
  }

  lemma RegisterRecords(c: Crypto, s: Store, op: Op, name: string, a: Option<Account>)
    requires op.Register? && Recorded(s, name, a)
    ensures Recorded(Step(c, s, op).0, name, NextAccount(a, Entry(op, Step(c, s, op).1), name))
  {
  }

  lemma LoginRecords(c: Crypto, s: Store, op: Op, name: string, a: Option<Account>)
    requires op.Login? && UsersAgree(s) && Recorded(s, name, a)
    ensures Recorded(Step(c, s, op).0, name, NextAccount(a, Entry(op, Step(c, s, op).1), name))
  {
    hide Mint, Unexpired;
  }

  lemma DeleteRecords(c: Crypto, s: Store, op: Op, name: string, a: Option<Account>)
    requires op.DeleteUser? && Recorded(s, name, a)
    ensures Recorded(Step(c, s, op).0, name, NextAccount(a, Entry(op, Step(c, s, op).1), name))
  {
    hide RevokeRows, WithoutUser;
  }

  lemma ChangeRecords(c: Crypto, s: Store, op: Op, name: string, a: Option<Account>)
    requires op.ChangePassword? && UsersAgree(s) && Recorded(s, name, a)
    ensures Recorded(Step(c, s, op).0, name, NextAccount(a, Entry(op, Step(c, s, op).1), name))
  {
    hide RevokeRows, WithoutUser;
  }

  lemma StepRecords(c: Crypto, s: Store, op: Op, name: string, a: Option<Account>)
    requires UsersAgree(s) && UsersReadable(op) && Recorded(s, name, a)
    ensures Recorded(Step(c, s, op).0, name, NextAccount(a, Entry(op, Step(c, s, op).1), name))
  {
    match op
    case Register(_, _, _, _, _, _, _, _) => RegisterRecords(c, s, op, name, a);
    case Login(_, _, _, _, _) => LoginRecords(c, s, op, name, a);
    case Logout(_, _) =>
    case DeleteUser(_, _, _) => DeleteRecords(c, s, op, name, a);
    case ChangePassword(_, _, _, _, _, _) => ChangeRecords(c, s, op, name, a);
    case Restart(_, _, _, _) =>
  }

  ghost predicate Readable(ops: seq<Op>) {
    forall i :: 0 <= i < |ops| ==> UsersReadable(ops[i])
  }

  /**
   After every run, whatever commits failed, both layers hold for every name exactly the account the
   log tells: the identity and role of its registration, the hash it last got, the logins since.
   */
  lemma {:induction false} AccountsFollowLog(c: Crypto, ops: seq<Op>, name: string)
    requires Readable(ops)
    ensures Recorded(Run(c, ops), name, AccountIn(Log(c, ops), name))
  {
    if ops != [] {
      var front, op := ops[..|ops| - 1], ops[|ops| - 1];
      AccountsFollowLog(c, front, name);
      UsersAlwaysAgree(c, front);
      StepRecords(c, Run(c, front), op, name, AccountIn(Log(c, front), name));
      assert Log(c, ops)[..|front|] == Log(c, front);
    }
  }

  // ---------------------------------------------------------------------------
  // Replies
  // ---------------------------------------------------------------------------

  /** The token of one user, minted at `at`: its claims, and a valid signature over them. */
  ghost predicate IsTokenOf(c: Crypto, t: Token, id: string, name: string, role: Role, at: int) {
    && t.Compact?
    && t.payload == Json(Some(id), Some(name), Some(RoleName(role)), Some(at), Some(at + 604800))
    && t.signature == c.sign(t.header, t.payload)
  }

  /** Over any tables, disabled users included: a login is answered by the user's row. */
  lemma LoginAnswersByRow(c: Crypto, s: Store, op: Op)
    requires op.Login? && UsersAgree(s)
    ensures var reply := Step(c, s, op).1;
            if op.username !in s.userRows then reply == Refused(InvalidCredentials)
            else
              var row := s.userRows[op.username];
              if !row.active then reply == Refused(UserDisabled)
              else if !c.verify(op.password, row.passwordHash) then reply == Refused(InvalidCredentials)
              else reply.Issued? && IsTokenOf(c, reply.token, row.id, op.username, row.role, op.at.mint)
  {
    assert op.username in s.users ==> SameUser(s.users[op.username], s.userRows[op.username]);
    hide Unexpired, SaveIf;
  }

  /** A login succeeds exactly for a registered name and a password matching the hash it last got. */
  lemma LoginAnswersByLog(c: Crypto, ops: seq<Op>, op: Op)
    requires op.Login? && Readable(ops)
    ensures var a, reply := AccountIn(Log(c, ops), op.username), Step(c, Run(c, ops), op).1;
            && (reply.Issued? <==> a.Some? && c.verify(op.password, a.value.hash))
            && (reply.Issued? ==> IsTokenOf(c, reply.token, a.value.id, op.username, a.value.role, op.at.mint))
            && (!reply.Issued? ==> reply == Refused(InvalidCredentials))
  {
    AccountsFollowLog(c, ops, op.username);
    UsersAlwaysAgree(c, ops);
    LoginAnswersByRow(c, Run(c, ops), op);
    hide Step, Run, Log, AccountIn, UsersAgree;
  }

  /** A registration succeeds exactly for a long enough free name and password, if the hash and the row can be made. */
  lemma RegisterAnswersByLog(c: Crypto, ops: seq<Op>, op: Op)
    requires op.Register? && Readable(ops)
    ensures var a, reply := AccountIn(Log(c, ops), op.username), Step(c, Run(c, ops), op).1;
            var long := |op.username| >= 3 && |op.password| >= 6;
            && (reply.Issued? <==> long && a.None? && op.hash.Some? && op.userCommit)
            && (reply.Issued? ==> IsTokenOf(c, reply.token, op.id, op.username, op.role, op.at.mint))
            && (reply == Refused(UserExists) <==> long && a.Some?)
            && (reply == Refused(DatabaseError) <==> long && a.None? && op.hash.Some? && !op.userCommit)
            && (reply == Refused(InvalidInput) <==> !long || (a.None? && op.hash.None?))
  {
    AccountsFollowLog(c, ops, op.username);
    hide Run, Log, AccountIn;
  }

  /** A password is changed exactly when the current one matches the log's hash, and the rest can be done. */
  lemma ChangeAnswersByLog(c: Crypto, ops: seq<Op>, op: Op)
    requires op.ChangePassword? && Readable(ops)
    ensures var a, reply := AccountIn(Log(c, ops), op.username), Step(c, Run(c, ops), op).1;
            var matches := |op.next| >= 6 && a.Some? && c.verify(op.current, a.value.hash);
            && (reply == Done <==> matches && op.hash.Some? && op.userCommit)
            && (reply == Refused(InvalidInput) <==> |op.next| < 6 || (matches && op.hash.None?))
            && (reply == Refused(UserNotFound) <==> |op.next| >= 6 && a.None?)
            && (reply == Refused(InvalidCredentials) <==> |op.next| >= 6 && a.Some? && !matches)
            && (reply == Refused(DatabaseError) <==> matches && op.hash.Some? && !op.userCommit)
  {
    AccountsFollowLog(c, ops, op.username);
    hide Run, Log, AccountIn, Revoke;
  }

  lemma DeleteAnswersByLog(c: Crypto, ops: seq<Op>, op: Op)
    requires op.DeleteUser? && Readable(ops)
    ensures var a, reply := AccountIn(Log(c, ops), op.username), Step(c, Run(c, ops), op).1;
            && (reply == Done <==> a.Some? && op.userCommit)
            && (reply == Refused(UserNotFound) <==> a.None?)
            && (reply == Refused(DatabaseError) <==> a.Some? && !op.userCommit)
  {
    AccountsFollowLog(c, ops, op.username);
    hide Run, Log, AccountIn, Revoke;
  }

  /**
   While an offline reset has not reached the cache, a login is answered by the log's hash and, if the
   table can be read, by the new one as well; any other password is refused.
   */
  lemma OfflineResetAnswers(c: Crypto, ops: seq<Op>, op: Op, hash: string)
    requires op.Login? && Readable(ops) && op.username in Run(c, ops).userRows
    ensures AccountIn(Log(c, ops), op.username).Some?
    ensures var stale := AccountIn(Log(c, ops), op.username).value.hash;
            var reply := Step(c, OfflineReset(Run(c, ops), op.username, hash), op).1;
            && (reply.Issued? <==> c.verify(op.password, stale) || (op.rowsReadable && c.verify(op.password, hash)))
            && (!reply.Issued? ==> reply == Refused(InvalidCredentials))
  {
    AccountsFollowLog(c, ops, op.username);
    hide Run, Log, AccountIn, Unexpired, Mint;
  }

  // ---------------------------------------------------------------------------
  // A password change takes effect
  // ---------------------------------------------------------------------------

  lemma LogStep(c: Crypto, ops: seq<Op>, op: Op)
    ensures Run(c, ops + [op]) == Step(c, Run(c, ops), op).0
    ensures Log(c, ops + [op]) == Log(c, ops) + [Entry(op, Step(c, Run(c, ops), op).1)]
  {
    assert (ops + [op])[..|ops|] == ops;
  }

  /** Operations that leave the hash of `name` alone, whatever they are answered. */
  ghost predicate KeepsPassword(op: Op, name: string) {
    !((op.Register? || op.DeleteUser? || op.ChangePassword?) && op.username == name)
  }

  lemma {:induction false} HashStays(c: Crypto, ops: seq<Op>, more: seq<Op>, name: string)
    requires forall i :: 0 <= i < |more| ==> KeepsPassword(more[i], name)
    requires AccountIn(Log(c, ops), name).Some?
    ensures AccountIn(Log(c, ops + more), name).Some?
    ensures AccountIn(Log(c, ops + more), name).value.hash == AccountIn(Log(c, ops), name).value.hash
  {
    if more == [] {
      assert ops + more == ops;
    } else {
      var m := |more| - 1;
      HashStays(c, ops, more[..m], name);
      LogStep(c, ops + more[..m], more[m]);
      assert ops + more == ops + more[..m] + [more[m]];
      AccountStep(Log(c, ops + more[..m]), Entry(more[m], Step(c, Run(c, ops + more[..m]), more[m]).1), name);
    }
  }

  lemma AccountStep(log: seq<Entry>, e: Entry, name: string)
    ensures AccountIn(log + [e], name) == NextAccount(AccountIn(log, name), e, name)
  {
    assert (log + [e])[..|log|] == log;
  }

  /**
   After a password change that was answered `Done`, and until the next registration, deletion or
   change of that name, logins are answered by the new hash alone.
   */
  lemma ChangedPasswordDecides(c: Crypto, ops: seq<Op>, change: Op, more: seq<Op>, login: Op)
    requires change.ChangePassword? && login.Login? && login.username == change.username
    requires Readable(ops + [change] + more) && Step(c, Run(c, ops), change).1 == Done
    requires forall i :: 0 <= i < |more| ==> KeepsPassword(more[i], change.username)
    ensures change.hash.Some?
    ensures var reply := Step(c, Run(c, ops + [change] + more), login).1;
            if c.verify(login.password, change.hash.value) then reply.Issued? else reply == Refused(InvalidCredentials)
  {
    hide Step, Run, Log, AccountIn, Readable, KeepsPassword, IsTokenOf;
    ReadablePrefix(ops, change, more);
    ChangeSetsHash(c, ops, change);
    HashStays(c, ops + [change], more, change.username);
    LoginAnswersByLog(c, ops + [change] + more, login);
  }

  lemma ChangeSetsHash(c: Crypto, ops: seq<Op>, change: Op)
    requires change.ChangePassword? && Readable(ops) && Step(c, Run(c, ops), change).1 == Done
    ensures change.hash.Some? && AccountIn(Log(c, ops + [change]), change.username).Some?
    ensures AccountIn(Log(c, ops + [change]), change.username).value.hash == change.hash.value
  {
    hide Step, Run, Log, AccountIn;
    ChangeAnswersByLog(c, ops, change);
    LogStep(c, ops, change);
    AccountStep(Log(c, ops), Entry(change, Done), change.username);
  }

  lemma ReadablePrefix(ops: seq<Op>, op: Op, more: seq<Op>)
    requires Readable(ops + [op] + more)
    ensures Readable(ops)
  {
    var all := ops + [op] + more;
    assert forall i :: 0 <= i < |ops| ==> all[i] == ops[i];
  }

  // ---------------------------------------------------------------------------
  // The identity a token carries
  // ---------------------------------------------------------------------------

  /** Role names are those of the wire format, and parse back to their roles. */
  lemma RoleNames(r: Role, text: string)
    ensures RoleName(Admin) == "admin" && RoleName(Member) == "user" && RoleName(Viewer) == "viewer"
    ensures ParseRole(text) == Some(r) <==> text == RoleName(r)
  {
  }

  lemma {:induction false} LogPrefix(c: Crypto, ops: seq<Op>, k: nat)
    requires k <= |ops|
    ensures Log(c, ops)[..k] == Log(c, ops[..k])
  {
    if k < |ops| {
      var m := |ops| - 1;
      LogPrefix(c, ops[..m], k);
      assert ops[..m][..k] == ops[..k];
      assert Log(c, ops)[..k] == Log(c, ops[..m])[..k];
    } else {
      assert ops[..k] == ops && Log(c, ops)[..k] == Log(c, ops);
    }
  }

  /** A valid token of a user is validated to that user, whatever the store. */
  lemma TokenValidatesTo(c: Crypto, s: Store, t: Token, now: int, id: string, name: string, role: Role, at: int)
    requires IsTokenOf(c, t, id, name, role, at) && Validate(c, s, t, now).Ok?
    ensures Validate(c, s, t, now) == Ok(Session(id, name, role, at, at + 604800))
  {
    RoleNames(role, RoleName(role));
    hide ParseRole, RoleName;
  }

  /** The account that an operation which issues a token speaks of, as the log stands after it. */
  ghost predicate IssuedTo(c: Crypto, log: seq<Entry>, i: nat, t: Token, a: Account)
    requires i < |log|
  {
    var op := log[i].op;
    && (op.Register? || op.Login?)
    && log[i].reply == Issued(t) && AccountIn(log[..i + 1], op.username) == Some(a)
    && IsTokenOf(c, t, a.id, op.username, a.role, op.at.mint)
    && (op.Register? ==> a.id == op.id && a.role == op.role)
  }

  /** Every issued token is that of the account which the log tells for its operation. */
  lemma IssuesToAccount(c: Crypto, ops: seq<Op>, i: nat, t: Token)
    requires Readable(ops) && i < |ops| && Log(c, ops)[i].reply == Issued(t)
    ensures exists a :: IssuedTo(c, Log(c, ops), i, t, a)
  {
    hide Log, Run, Step, AccountIn, NextAccount, IsTokenOf;
    var log, front, op := Log(c, ops), ops[..i], ops[i];
    LogPrefix(c, ops, i + 1);
    assert ops[..i + 1] == front + [op];
    LogStep(c, front, op);
    assert log[i] == log[..i + 1][i];
    OnlyTheseIssue(c, Run(c, front), op);
    var a := IssuerAccount(c, front, op, t);
    assert IssuedTo(c, log, i, t, a);
  }

  lemma IssuerAccount(c: Crypto, front: seq<Op>, op: Op, t: Token) returns (a: Account)
    requires Readable(front) && (op.Register? || op.Login?) && Step(c, Run(c, front), op).1 == Issued(t)
    ensures AccountIn(Log(c, front + [op]), op.username) == Some(a)
    ensures IsTokenOf(c, t, a.id, op.username, a.role, op.at.mint)
    ensures op.Register? ==> a.id == op.id && a.role == op.role
  {
    hide Log, Run, Step, AccountIn, IsTokenOf;
    LogStep(c, front, op);
    AccountStep(Log(c, front), Entry(op, Issued(t)), op.username);
    if op.Register? {
      RegisterAnswersByLog(c, front, op);
    } else {
      LoginAnswersByLog(c, front, op);
    }
    a := AccountIn(Log(c, front + [op]), op.username).value;
  }

  lemma OnlyTheseIssue(c: Crypto, s: Store, op: Op)
    ensures Step(c, s, op).1.Issued? ==> op.Register? || op.Login?
  {
  }

  /**
   In every run, an accepted token was issued by some registration or login, and it validates to
   exactly that account's identifier, name and role, from its minting for seven days.
   */
  lemma AcceptedTokenIdentifies(c: Crypto, ops: seq<Op>, t: Token, now: int) returns (i: nat, a: Account)
    requires Injective(c.key) && Readable(ops) && Validate(c, Run(c, ops), t, now).Ok?
    ensures i < |ops| && IssuedTo(c, Log(c, ops), i, t, a)
    ensures var op := ops[i];
            && (op.Register? || op.Login?)
            && Validate(c, Run(c, ops), t, now)
               == Ok(Session(a.id, op.username, a.role, op.at.mint, op.at.mint + 604800))
  {
    var log := Log(c, ops);
    AcceptedMeansIssuedOrResurrected(c, ops, log, t, now);
    if j :| IssuedAndKept(log, t, j) {
      i := j;
    } else {
      var j, d, r :| LeakedThenRestarted(log, t, j, d, r);
      i := j;
    }
    IssuesToAccount(c, ops, i, t);
    a :| IssuedTo(c, log, i, t, a);
    LogOps(c, ops, i);
    TokenValidatesTo(c, Run(c, ops), t, now, a.id, ops[i].username, a.role, ops[i].at.mint);
  }

  lemma {:induction false} LogOps(c: Crypto, ops: seq<Op>, i: nat)
    requires i < |ops|
    ensures Log(c, ops)[i].op == ops[i]
  {
    if i < |ops| - 1 { LogOps(c, ops[..|ops| - 1], i); }
  }

  /** Why a token is refused: its form or signature first, then its age, then the allowlist. */
  lemma VerdictReasons(c: Crypto, s: Store, t: Token, now: int)
    ensures var v, signed := Validate(c, s, t, now), Minted(c, t);
            && (v == Err(InvalidToken) <==> !signed)
            && (v == Err(ExpiredToken) <==> signed && now > ExpiryOf(t.payload) + 30)
            && (v == Err(SessionRevoked) <==> signed && now <= ExpiryOf(t.payload) + 30 && c.key(t) !in s.sessions)
            && (v.Ok? <==> signed && now <= ExpiryOf(t.payload) + 30 && c.key(t) in s.sessions)
  {
  }

  // ---------------------------------------------------------------------------
  // Stored sessions
  // ---------------------------------------------------------------------------

  /** A stored session is the one that some issue of its token opened. */
  ghost predicate OpenedBy(log: seq<Entry>, t: Token, info: Session, i: nat) {
    && i < |log| && log[i].reply == Issued(t) && (log[i].op.Register? || log[i].op.Login?)
    && (var op := log[i].op;
        var a := AccountIn(log[..i + 1], op.username);
        a.Some? && info == Session(a.value.id, op.username, a.value.role, op.at.begun, op.at.expiry + 604800))
  }

  ghost predicate Opened(log: seq<Entry>, t: Token, info: Session) {
    exists i: nat :: OpenedBy(log, t, info, i)
  }

  ghost predicate SessionsOpened(c: Crypto, s: Store, log: seq<Entry>, t: Token) {
    var k := c.key(t);
    (k in s.sessions ==> Opened(log, t, s.sessions[k])) && (k in s.sessionRows ==> Opened(log, t, s.sessionRows[k]))
  }

  lemma OpenedStays(log: seq<Entry>, e: Entry, t: Token, info: Session)
    requires Opened(log, t, info)
    ensures Opened(log + [e], t, info)
  {
    var i: nat :| OpenedBy(log, t, info, i);
    var more := log + [e];
    assert more[i] == log[i] && more[..i + 1] == log[..i + 1];
    assert OpenedBy(more, t, info, i);
  }

  /** The session that a registration or login stores. */
  function StoredBy(op: Op, a: Account): Session
    requires op.Register? || op.Login?
  {
    Session(a.id, op.username, a.role, op.at.begun, op.at.expiry + 604800)
  }

  /** Which sessions a step can leave under a token's key: old ones, or the one it opens. */
  lemma StepSessions(c: Crypto, s: Store, op: Op, t: Token, a: Option<Account>)
    requires Injective(c.key) && UsersAgree(s)
    requires (op.Register? || op.Login?) ==> Recorded(s, op.username, a)
    ensures var (s', reply) := Step(c, s, op);
            var k := c.key(t);
            && (k in s'.sessions ==>
                  || (k in s.sessions && s'.sessions[k] == s.sessions[k])
                  || (k in s.sessionRows && s'.sessions[k] == s.sessionRows[k])
                  || Opens(op, reply, t, a, s'.sessions[k]))
            && (k in s'.sessionRows ==>
                  || (k in s.sessionRows && s'.sessionRows[k] == s.sessionRows[k])
                  || Opens(op, reply, t, a, s'.sessionRows[k]))
  {
    var reply := Step(c, s, op).1;
    if reply.Issued? && reply.token != t {
      assert c.key(reply.token) != c.key(t);
    }
    match op
    case Register(_, _, _, _, _, _, _, _) =>
    case Login(_, _, _, _, _) => LoginSessions(c, s, op, t, a);
    case Logout(_, _) =>
    case DeleteUser(_, _, _) =>
    case ChangePassword(_, _, _, _, _, _) =>
    case Restart(_, _, _, _) =>
  }

  ghost predicate Opens(op: Op, reply: Reply, t: Token, a: Option<Account>, info: Session) {
    && (op.Register? || op.Login?) && reply == Issued(t)
    && (var next := NextAccount(a, Entry(op, reply), op.username); next.Some? && info == StoredBy(op, next.value))
  }

  lemma LoginSessions(c: Crypto, s: Store, op: Op, t: Token, a: Option<Account>)
    requires op.Login? && Injective(c.key) && UsersAgree(s) && Recorded(s, op.username, a)
    ensures var (s', reply) := DoLogin(c, s, op);
            var k := c.key(t);
            && (k in s'.sessions ==>
                  (k in s.sessions && s'.sessions[k] == s.sessions[k]) || Opens(op, reply, t, a, s'.sessions[k]))
            && (k in s'.sessionRows ==>
                  (k in s.sessionRows && s'.sessionRows[k] == s.sessionRows[k]) || Opens(op, reply, t, a, s'.sessionRows[k]))
  {
    var reply := DoLogin(c, s, op).1;
    if reply.Issued? && reply.token != t {
      assert c.key(reply.token) != c.key(t);
    }
  }

  /** In every run, every session in memory or in the table is the one some issue of its token opened. */
  lemma {:induction false} SessionsFollowLog(c: Crypto, ops: seq<Op>, t: Token)
    requires Injective(c.key) && Readable(ops)
    ensures SessionsOpened(c, Run(c, ops), Log(c, ops), t)
  {
    if ops != [] {
      var front, op := ops[..|ops| - 1], ops[|ops| - 1];
      hide Step, AccountIn, NextAccount, Recorded, SessionsOpened, UsersAgree, Opens;
      SessionsFollowLog(c, front, t);
      UsersAlwaysAgree(c, front);
      var s, log := Run(c, front), Log(c, front);
      var name := if op.Register? || op.Login? then op.username else "";
      AccountsFollowLog(c, front, name);
      var a, e := AccountIn(log, name), Entry(op, Step(c, s, op).1);
      StepSessions(c, s, op, t, a);
      assert ops == front + [op];
      LogStep(c, front, op);
      hide *;
      CarryOver(c, s, op, log, t, a);
    }
  }

  lemma CarryOver(c: Crypto, s: Store, op: Op, log: seq<Entry>, t: Token, a: Option<Account>)
    requires SessionsOpened(c, s, log, t)
    requires (op.Register? || op.Login?) ==> a == AccountIn(log, op.username)
    requires var (s', reply) := Step(c, s, op);
             var k := c.key(t);
             && (k in s'.sessions ==>
                   || (k in s.sessions && s'.sessions[k] == s.sessions[k])
                   || (k in s.sessionRows && s'.sessions[k] == s.sessionRows[k])
                   || Opens(op, reply, t, a, s'.sessions[k]))
             && (k in s'.sessionRows ==>
                   || (k in s.sessionRows && s'.sessionRows[k] == s.sessionRows[k])
                   || Opens(op, reply, t, a, s'.sessionRows[k]))
    ensures SessionsOpened(c, Step(c, s, op).0, log + [Entry(op, Step(c, s, op).1)], t)
  {
    hide Step, AccountIn, NextAccount;
    var (s', reply) := Step(c, s, op);
    var k, e := c.key(t), Entry(op, reply);
    if k in s.sessions { OpenedStays(log, e, t, s.sessions[k]); }
    if k in s.sessionRows { OpenedStays(log, e, t, s.sessionRows[k]); }
    if k in s'.sessions && Opens(op, reply, t, a, s'.sessions[k]) { OpensNow(log, e, t, a, s'.sessions[k]); }
    if k in s'.sessionRows && Opens(op, reply, t, a, s'.sessionRows[k]) { OpensNow(log, e, t, a, s'.sessionRows[k]); }
  }

  lemma OpensNow(log: seq<Entry>, e: Entry, t: Token, a: Option<Account>, info: Session)
    requires Opens(e.op, e.reply, t, a, info) && a == AccountIn(log, e.op.username)
    ensures Opened(log + [e], t, info)
  {
    AccountStep(log, e, e.op.username);
    hide AccountIn, NextAccount;
    var more := log + [e];
    assert more[..|log| + 1] == more && more[|log|] == e;
    assert OpenedBy(more, t, info, |log|);
  }

  /** Nothing expired survives a boot in memory, nor in the table if the purge commits, nor a login in memory. */
  lemma NothingExpiredKept(c: Crypto, s: Store, op: Op, k: string)
    ensures var (s', reply) := Step(c, s, op);
            && (op.Restart? && k in s'.sessions ==> s'.sessions[k].expiresAt + 30 > op.now)
            && (op.Restart? && op.sessionsReadable && op.cleanupCommit && k in s'.sessionRows ==>
                  s'.sessionRows[k].expiresAt + 30 > op.now)
            && (op.Login? && reply.Issued? && k in s'.sessions ==> s'.sessions[k].expiresAt + 30 > op.at.reap)
  {
  }
}
