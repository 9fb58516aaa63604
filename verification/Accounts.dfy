/** users.go, totp.go, users_admin.go: accounts, pending second-factor logins and sessions, with each
    request as one atomic step. Password hashing, code validation and random tokens are inputs. */
module Accounts {
  import opened Paths
  import opened Sessions
  import opened Shares  // Option, HOUR

  const ADMIN := "admin"
  const VIEWER := "viewer"
  const PENDING_TTL := 5 * 60 * 1_000_000_000
  const MIN_PASSWORD := 8
  const SPACE := " \t\n\r"

  datatype User = User(username: string, passwordHash: string, role: string,
                       secret: string, enabled: bool, recovery: seq<string>)

  /** A login that passed the password and waits for the code; `role` is the one it had then. */
  datatype Pending = Pending(username: string, role: string, expiresAt: int)

  datatype Setup = Setup(secret: string, expiresAt: int)

  /** `strings.TrimSpace`. */
  function TrimSpace(s: string): string {
    Trim(s, SPACE)
  }

  predicate KnownRole(role: string) {
    role == ADMIN || role == VIEWER
  }

  // ---------------------------------------------------------------- users.go

  function IndexFrom(users: seq<User>, name: string, k: nat): (i: nat)
    requires k <= |users|
    ensures k <= i <= |users|
    ensures i < |users| ==> EqualFold(users[i].username, name)
    ensures forall j :: k <= j < i ==> !EqualFold(users[j].username, name)
    decreases |users| - k
  {
    if k == |users| || EqualFold(users[k].username, name) then k else IndexFrom(users, name, k + 1)
  }

  /** The first user of that name, up to case, or the length. */
  function Index(users: seq<User>, name: string): nat {
    IndexFrom(users, name, 0)
  }

  function AdminsTo(users: seq<User>, n: nat): nat
    requires n <= |users|
  {
    if n == 0 then 0 else AdminsTo(users, n - 1) + if users[n - 1].role == ADMIN then 1 else 0
  }

  function Admins(users: seq<User>): nat {
    AdminsTo(users, |users|)
  }

  function AddUserSpec(users: seq<User>, name: string, password: string, hash: string,
                       role: string): (seq<User>, bool) {
    var n := TrimSpace(name);
    if n == "" || |password| < MIN_PASSWORD || !KnownRole(role) || Index(users, n) < |users| then (users, false)
    else (users + [User(n, hash, role, "", false, [])], true)
  }

  function SetPasswordSpec(users: seq<User>, name: string, password: string, hash: string): (seq<User>, bool) {
    var n := TrimSpace(name);
    var i := Index(users, n);
    if n == "" || |password| < MIN_PASSWORD || i == |users| then (users, false)
    else (users[i := users[i].(passwordHash := hash)], true)
  }

  function WithoutTotp(u: User): User {
    u.(secret := "", enabled := false, recovery := [])
  }

  function SetRoleSpec(users: seq<User>, name: string, role: string): (seq<User>, bool) {
    var i := Index(users, TrimSpace(name));
    if !KnownRole(role) || i == |users| then (users, false)
    else if users[i].role == ADMIN && role != ADMIN && Admins(users) <= 1 then (users, false)
    else
      var u := users[i].(role := role);
      (users[i := if role != ADMIN then WithoutTotp(u) else u], true)
  }

  function DeleteUserSpec(users: seq<User>, name: string): (seq<User>, bool) {
    var i := Index(users, TrimSpace(name));
    if i == |users| || (users[i].role == ADMIN && Admins(users) <= 1) then (users, false)
    else (users[..i] + users[i + 1..], true)
  }

  /** `totpEnabled`, and what `totpSecret` requires. */
  predicate TotpActive(users: seq<User>, name: string) {
    var i := Index(users, name);
    i < |users| && users[i].role == ADMIN && users[i].enabled && users[i].secret != ""
  }

  function EnableTotpSpec(users: seq<User>, name: string, secret: string, hashes: seq<string>): (seq<User>, bool) {
    var i := Index(users, name);
    if i == |users| || users[i].role != ADMIN then (users, false)
    else (users[i := users[i].(secret := secret, enabled := true, recovery := hashes)], true)
  }

  function DisableTotpSpec(users: seq<User>, name: string): (seq<User>, bool) {
    var i := Index(users, name);
    if i == |users| then (users, false) else (users[i := WithoutTotp(users[i])], true)
  }

  function HashFrom(hashes: seq<string>, sum: string, k: nat): (j: nat)
    requires k <= |hashes|
    ensures k <= j <= |hashes| && (j < |hashes| ==> hashes[j] == sum)
    ensures forall x :: k <= x < j ==> hashes[x] != sum
    decreases |hashes| - k
  {
    if k == |hashes| || hashes[k] == sum then k else HashFrom(hashes, sum, k + 1)
  }

  /** `consumeRecoveryCode`; `sum` is the hash of the code. */
  function ConsumeSpec(users: seq<User>, name: string, sum: string): (seq<User>, bool) {
    var i := Index(users, name);
    if i == |users| then (users, false)
    else
      var hashes := users[i].recovery;
      var j := HashFrom(hashes, sum, 0);
      if j == |hashes| then (users, false)
      else (users[i := users[i].(recovery := hashes[..j] + hashes[j + 1..])], true)
  }

  /** `verifyTOTPOrRecovery`; `valid` says whether the authenticator code is right. */
  function VerifySpec(users: seq<User>, name: string, code: string, valid: bool, sum: string): (seq<User>, bool) {
    var c := TrimSpace(code);
    if !TotpActive(users, name) || c == "" then (users, false)
    else if valid then (users, true)
    else if |c| >= 12 then ConsumeSpec(users, name, sum)
    else (users, false)
  }

  // ---------------------------------------------------------------- requests

  datatype State = State(users: seq<User>, sessions: Table, logins: map<string, Pending>, setups: map<string, Setup>)

  function Unexpired(logins: map<string, Pending>, now: int): map<string, Pending> {
    map t | t in logins && now <= logins[t].expiresAt :: logins[t]
  }

  /** `putPendingLogin`. */
  function PutLogin(logins: map<string, Pending>, token: string, name: string, role: string,
                    now: int): map<string, Pending> {
    Unexpired(logins, now)[token := Pending(name, role, now + PENDING_TTL)]
  }

  /** `destroyByUsername`. */
  function WithoutUser(t: Table, name: string, now: int): Table {
    if TrimSpace(name) == "" then t else t - Doomed(t, DestroyUser(TrimSpace(name)), now)
  }

  datatype Event =
    | AddUser(name: string, password: string, hash: string, role: string)
    | DeleteUser(actor: string, name: string, now: int)
    | SetPassword(name: string, password: string, hash: string, now: int)
    | SetRole(actor: string, name: string, role: string, now: int)
    | Login(name: string, passwordOk: bool, token: string, id: string, now: int)
    | LoginTotp(token: string, code: string, valid: bool, sum: string, again: string, id: string, now: int)
    | TotpBegin(sid: string, secret: string, now: int)
    | TotpConfirm(sid: string, valid: bool, hashes: seq<string>, now: int)
    | TotpDisable(sid: string, passwordOk: bool, code: string, valid: bool, sum: string, now: int)
    | Logout(sid: string)
    | Reap(now: int)
    | Restart(now: int)

  /** The session a request carries, if it is there and has not expired. */
  function Current(s: State, sid: string, now: int): Option<Session> {
    if sid in s.sessions && !Lapsed(s.sessions[sid], now) then Some(s.sessions[sid]) else None
  }

  predicate AsAdmin(s: State, sid: string, now: int) {
    Current(s, sid, now).Some? && Current(s, sid, now).value.role == ADMIN
  }

  /** `finishLoginAfterPassword` for the account that `authenticate` copied. */
  function FinishLogin(s: State, u: User, token: string, id: string, now: int): State {
    if u.role == ADMIN && TotpActive(s.users, u.username) then
      s.(logins := PutLogin(s.logins, token, u.username, u.role, now))
    else s.(sessions := s.sessions[id := Session(u.username, u.role, now + SESSION_TTL)])
  }

  /** `handleLoginTOTP` after `takePendingLogin` has found an entry. */
  function FinishTotp(s: State, p: Pending, e: Event): State
    requires e.LoginTotp?
  {
    if e.now > p.expiresAt then s
    else
      var (users, ok) := VerifySpec(s.users, p.username, e.code, e.valid, e.sum);
      if !ok then s.(users := users, logins := PutLogin(s.logins, e.again, p.username, p.role, e.now))
      else s.(users := users, sessions := s.sessions[e.id := Session(p.username, p.role, e.now + SESSION_TTL)])
  }

  function Step(s: State, e: Event): State {
    match e
    case AddUser(name, password, hash, role) =>
      s.(users := AddUserSpec(s.users, name, password, hash, if role == "" then VIEWER else role).0)
    case DeleteUser(actor, name, now) =>
      if EqualFold(actor, name) then s
      else
        var (users, ok) := DeleteUserSpec(s.users, name);
        if ok then s.(users := users, sessions := WithoutUser(s.sessions, name, now)) else s
    case SetPassword(name, password, hash, now) =>
      var (users, ok) := SetPasswordSpec(s.users, name, password, hash);
      if ok then s.(users := users, sessions := WithoutUser(s.sessions, name, now)) else s
    case SetRole(actor, name, role, now) =>
      if EqualFold(actor, name) && role != ADMIN then s
      else
        var (users, ok) := SetRoleSpec(s.users, name, role);
        if ok then s.(users := users, sessions := WithoutUser(s.sessions, name, now)) else s
    case Login(name, passwordOk, token, id, now) =>
      var i := Index(s.users, name);
      if i == |s.users| || !passwordOk then s else FinishLogin(s, s.users[i], token, id, now)
    case LoginTotp(token, _, _, _, _, _, _) =>
      if token !in s.logins then s else FinishTotp(s.(logins := s.logins - {token}), s.logins[token], e)
    case TotpBegin(sid, secret, now) =>
      if !AsAdmin(s, sid, now) || TotpActive(s.users, s.sessions[sid].username) then s
      else s.(setups := s.setups[Fold(s.sessions[sid].username) := Setup(secret, now + PENDING_TTL)])
    case TotpConfirm(sid, valid, hashes, now) =>
      if !AsAdmin(s, sid, now) then s
      else
        var name := s.sessions[sid].username;
        if Fold(name) !in s.setups || now > s.setups[Fold(name)].expiresAt || !valid then s
        else
          var secret := s.setups[Fold(name)].secret;
          s.(setups := s.setups - {Fold(name)}, users := EnableTotpSpec(s.users, name, secret, hashes).0)
    case TotpDisable(sid, passwordOk, code, valid, sum, now) =>
      if !AsAdmin(s, sid, now) || !passwordOk then s
      else
        var name := s.sessions[sid].username;
        if TotpActive(s.users, name) then
          var (users, ok) := VerifySpec(s.users, name, code, valid, sum);
          s.(users := if ok then DisableTotpSpec(users, name).0 else users)
        else s.(users := DisableTotpSpec(s.users, name).0)
    case Logout(sid) => s.(sessions := s.sessions - {sid})
    case Reap(now) => s.(sessions := s.sessions - Doomed(s.sessions, Call.Reap, now))
    case Restart(now) => State.State(s.users, Loaded(Snapshot(s.sessions, now), now), map[], map[])
  }

  // ---------------------------------------------------------------- the invariant

  predicate UniqueNames(users: seq<User>) {
    forall i, j :: 0 <= i < j < |users| ==> !EqualFold(users[i].username, users[j].username)
  }

  /** Only admins carry second-factor data, roles are the two known ones, and nobody is nameless. */
  predicate UserOk(u: User) {
    u.username != "" && KnownRole(u.role) && (u.role != ADMIN ==> u == WithoutTotp(u))
  }

  predicate UsersOk(users: seq<User>) {
    UniqueNames(users) && Admins(users) >= 1 && forall i :: 0 <= i < |users| ==> UserOk(users[i])
  }

  predicate Is(u: User, s: Session) {
    EqualFold(u.username, s.username) && u.role == s.role
  }

  predicate NamesUser(users: seq<User>, s: Session) {
    exists i :: 0 <= i < |users| && Is(users[i], s)
  }

  /** Every session names a user with that user's role; every pending login was an admin's. */
  ghost predicate Inv(s: State) {
    && UsersOk(s.users)
    && (forall id :: id in s.sessions ==> NamesUser(s.users, s.sessions[id]))
    && (forall t :: t in s.logins ==> s.logins[t].role == ADMIN)
  }

  ghost predicate SessionsName(users: seq<User>, t: Table) {
    forall id :: id in t ==> NamesUser(users, t[id])
  }

  lemma Witness(users: seq<User>, s: Session, i: nat)
    requires i < |users| && Is(users[i], s)
    ensures NamesUser(users, s)
  {
  }

  // ---------------------------------------------------------------- counting admins

  lemma {:induction false} AdminsPrefix(a: seq<User>, b: seq<User>, n: nat)
    requires n <= |a| && n <= |b| && forall i :: 0 <= i < n ==> a[i].role == b[i].role
    ensures AdminsTo(a, n) == AdminsTo(b, n)
  {
    if n > 0 {
      AdminsPrefix(a, b, n - 1);
    }
  }

  lemma {:induction false} AdminsUpdated(users: seq<User>, i: nat, u: User, n: nat)
    requires i < |users| && n <= |users|
    ensures AdminsTo(users[i := u], n) == AdminsTo(users, n) +
              if i < n then (if u.role == ADMIN then 1 else 0) - (if users[i].role == ADMIN then 1 else 0) else 0
  {
    if n > 0 {
      AdminsUpdated(users, i, u, n - 1);
    }
  }

  lemma {:induction false} AdminsRemoved(users: seq<User>, i: nat, n: nat)
    requires i < n <= |users|
    ensures AdminsTo(users[..i] + users[i + 1..], n - 1) == AdminsTo(users, n) - if users[i].role == ADMIN then 1 else 0
    decreases n
  {
    var rest := users[..i] + users[i + 1..];
    if n == i + 1 {
      AdminsPrefix(rest, users, i);
    } else {
      AdminsRemoved(users, i, n - 1);
      assert rest[n - 2] == users[n - 1];
    }
  }

  lemma AdminsAppended(users: seq<User>, u: User)
    ensures Admins(users + [u]) == Admins(users) + if u.role == ADMIN then 1 else 0
  {
    AdminsPrefix(users + [u], users, |users|);
  }

  // ---------------------------------------------------------------- changes of one user

  /** Replacing user `i` by one of the same name and role changes no session's user. */
  lemma ReplacedUser(users: seq<User>, i: nat, u: User, t: Table)
    requires UsersOk(users) && i < |users| && UserOk(u)
    requires u.username == users[i].username && u.role == users[i].role
    requires SessionsName(users, t)
    ensures UsersOk(users[i := u]) && SessionsName(users[i := u], t)
  {
    AdminsUpdated(users, i, u, |users|);
    forall id | id in t ensures NamesUser(users[i := u], t[id]) {
      assert NamesUser(users, t[id]);
      var k :| 0 <= k < |users| && Is(users[k], t[id]);
      Witness(users[i := u], t[id], k);
    }
  }

  lemma FoldTransitive(a: string, b: string, c: string)
    requires EqualFold(a, b) && EqualFold(b, c)
    ensures EqualFold(a, c) && EqualFold(c, a)
  {
  }

  /** Sessions that survive `destroyByUsername` are those of other users. */
  lemma Survivors(t: Table, name: string, now: int, id: string)
    requires TrimSpace(name) != "" && id in WithoutUser(t, name, now)
    ensures id in t && WithoutUser(t, name, now)[id] == t[id] && !EqualFold(t[id].username, TrimSpace(name))
  {
  }

  lemma NotThatUser(u: User, s: Session, name: string)
    requires EqualFold(u.username, name) && !EqualFold(s.username, name)
    ensures !Is(u, s)
  {
  }

  lemma ChangedUser(users: seq<User>, i: nat, u: User, t: Table, name: string, now: int)
    requires UsersOk(users) && i < |users| && UserOk(u) && u.username == users[i].username
    requires EqualFold(users[i].username, TrimSpace(name)) && TrimSpace(name) != ""
    requires users[i].role == ADMIN && u.role != ADMIN ==> Admins(users) > 1
    requires SessionsName(users, t)
    ensures UsersOk(users[i := u]) && SessionsName(users[i := u], WithoutUser(t, name, now))
  {
    AdminsUpdated(users, i, u, |users|);
    forall id | id in WithoutUser(t, name, now) ensures NamesUser(users[i := u], t[id]) {
      Survivors(t, name, now, id);
      assert NamesUser(users, t[id]);
      NotThatUser(users[i], t[id], TrimSpace(name));
      var k :| 0 <= k < |users| && Is(users[k], t[id]);
      Witness(users[i := u], t[id], k);
    }
  }

  lemma RestOk(users: seq<User>, i: nat)
    requires UsersOk(users) && i < |users| && (users[i].role == ADMIN ==> Admins(users) > 1)
    ensures UsersOk(users[..i] + users[i + 1..])
  {
    hide UserOk, EqualFold, AdminsTo;
    AdminsRemoved(users, i, |users|);
  }

  lemma RemovedUser(users: seq<User>, i: nat, t: Table, name: string, now: int)
    requires UsersOk(users) && i < |users| && EqualFold(users[i].username, TrimSpace(name)) && TrimSpace(name) != ""
    requires users[i].role == ADMIN ==> Admins(users) > 1
    requires SessionsName(users, t)
    ensures var rest := users[..i] + users[i + 1..];
            UsersOk(rest) && SessionsName(rest, WithoutUser(t, name, now))
  {
    hide UsersOk;
    var rest := users[..i] + users[i + 1..];
    RestOk(users, i);
    forall id | id in WithoutUser(t, name, now) ensures NamesUser(rest, t[id]) {
      Survivors(t, name, now, id);
      assert NamesUser(users, t[id]);
      NotThatUser(users[i], t[id], TrimSpace(name));
      var k :| 0 <= k < |users| && Is(users[k], t[id]);
      Witness(rest, t[id], if k < i then k else k - 1);
    }
  }

  lemma AddedUser(users: seq<User>, u: User, t: Table)
    requires UsersOk(users) && UserOk(u) && Index(users, u.username) == |users| && SessionsName(users, t)
    ensures UsersOk(users + [u]) && SessionsName(users + [u], t)
  {
    AdminsAppended(users, u);
    forall id | id in t ensures NamesUser(users + [u], t[id]) {
      assert NamesUser(users, t[id]);
      var k :| 0 <= k < |users| && Is(users[k], t[id]);
      Witness(users + [u], t[id], k);
    }
  }

  lemma FewerSessions(users: seq<User>, t: Table, t': Table)
    requires SessionsName(users, t) && forall id :: id in t' ==> id in t && t'[id] == t[id]
    ensures SessionsName(users, t')
  {
  }

  /** A successful change by name names somebody. */
  lemma FoundIsNamed(users: seq<User>, name: string)
    requires UsersOk(users) && Index(users, name) < |users|
    ensures name != ""
  {
    var u := users[Index(users, name)];
    assert UserOk(u) && |Fold(u.username)| == |Fold(name)|;
  }

  // ---------------------------------------------------------------- every request keeps it

  lemma ConsumeKeeps(users: seq<User>, name: string, sum: string, t: Table)
    requires UsersOk(users) && SessionsName(users, t)
    ensures var r := ConsumeSpec(users, name, sum); UsersOk(r.0) && SessionsName(r.0, t)
  {
    var i := Index(users, name);
    if ConsumeSpec(users, name, sum).1 {
      var j := HashFrom(users[i].recovery, sum, 0);
      ReplacedUser(users, i, users[i].(recovery := users[i].recovery[..j] + users[i].recovery[j + 1..]), t);
    }
  }

  /** A code is only ever accepted for an account that is an admin now. */
  lemma VerifyKeeps(users: seq<User>, name: string, code: string, valid: bool, sum: string, t: Table)
    requires UsersOk(users) && SessionsName(users, t)
    ensures var (users', ok) := VerifySpec(users, name, code, valid, sum);
            && UsersOk(users') && SessionsName(users', t)
            && (ok ==> forall s: Session :: s.username == name && s.role == ADMIN ==> NamesUser(users', s))
  {
    hide UsersOk, SessionsName;
    ConsumeKeeps(users, name, sum, t);
    var (users', ok) := VerifySpec(users, name, code, valid, sum);
    if ok {
      var i := Index(users, name);
      forall s: Session | s.username == name && s.role == ADMIN ensures NamesUser(users', s) {
        Witness(users', s, i);
      }
    }
  }

  lemma DisableKeeps(users: seq<User>, name: string, t: Table)
    requires UsersOk(users) && SessionsName(users, t)
    ensures var r := DisableTotpSpec(users, name); UsersOk(r.0) && SessionsName(r.0, t)
  {
    var i := Index(users, name);
    if i < |users| {
      ReplacedUser(users, i, WithoutTotp(users[i]), t);
    }
  }

  lemma EnableKeeps(users: seq<User>, name: string, secret: string, hashes: seq<string>, t: Table)
    requires UsersOk(users) && SessionsName(users, t)
    ensures var r := EnableTotpSpec(users, name, secret, hashes); UsersOk(r.0) && SessionsName(r.0, t)
  {
    var i := Index(users, name);
    if i < |users| && users[i].role == ADMIN {
      ReplacedUser(users, i, users[i].(secret := secret, enabled := true, recovery := hashes), t);
    }
  }

  lemma AddUserKeeps(users: seq<User>, name: string, password: string, hash: string, role: string, t: Table)
    requires UsersOk(users) && SessionsName(users, t)
    ensures var r := AddUserSpec(users, name, password, hash, role); UsersOk(r.0) && SessionsName(r.0, t)
  {
    hide UsersOk, SessionsName;
    if AddUserSpec(users, name, password, hash, role).1 {
      AddedUser(users, User(TrimSpace(name), hash, role, "", false, []), t);
    }
  }

  lemma DeleteUserKeeps(users: seq<User>, name: string, t: Table, now: int)
    requires UsersOk(users) && SessionsName(users, t) && DeleteUserSpec(users, name).1
    ensures var r := DeleteUserSpec(users, name); UsersOk(r.0) && SessionsName(r.0, WithoutUser(t, name, now))
  {
    hide UsersOk, SessionsName;
    FoundIsNamed(users, TrimSpace(name));
    RemovedUser(users, Index(users, TrimSpace(name)), t, name, now);
  }

  lemma SetPasswordKeeps(users: seq<User>, name: string, password: string, hash: string, t: Table, now: int)
    requires UsersOk(users) && SessionsName(users, t) && SetPasswordSpec(users, name, password, hash).1
    ensures var r := SetPasswordSpec(users, name, password, hash);
            UsersOk(r.0) && SessionsName(r.0, WithoutUser(t, name, now))
  {
    var i := Index(users, TrimSpace(name));
    FoundIsNamed(users, TrimSpace(name));
    ChangedUser(users, i, users[i].(passwordHash := hash), t, name, now);
  }

  lemma SetRoleKeeps(users: seq<User>, name: string, role: string, t: Table, now: int)
    requires UsersOk(users) && SessionsName(users, t) && SetRoleSpec(users, name, role).1
    ensures var r := SetRoleSpec(users, name, role); UsersOk(r.0) && SessionsName(r.0, WithoutUser(t, name, now))
  {
    var i := Index(users, TrimSpace(name));
    FoundIsNamed(users, TrimSpace(name));
    var u := users[i].(role := role);
    ChangedUser(users, i, if role != ADMIN then WithoutTotp(u) else u, t, name, now);
  }

  lemma NewSession(users: seq<User>, t: Table, id: string, s: Session)
    requires SessionsName(users, t) && NamesUser(users, s)
    ensures SessionsName(users, t[id := s])
  {
  }

  lemma LoginKeeps(s: State, i: nat, token: string, id: string, now: int)
    requires Inv(s) && i < |s.users|
    ensures Inv(FinishLogin(s, s.users[i], token, id, now))
  {
    hide UsersOk;
    var u := s.users[i];
    var session := Session(u.username, u.role, now + SESSION_TTL);
    Witness(s.users, session, i);
    NewSession(s.users, s.sessions, id, session);
  }

  lemma TotpKeeps(s: State, p: Pending, e: Event)
    requires Inv(s) && p.role == ADMIN && e.LoginTotp?
    ensures Inv(FinishTotp(s, p, e))
  {
    hide UsersOk, VerifySpec;
    VerifyKeeps(s.users, p.username, e.code, e.valid, e.sum, s.sessions);
    var (users, ok) := VerifySpec(s.users, p.username, e.code, e.valid, e.sum);
    if ok {
      NewSession(users, s.sessions, e.id, Session(p.username, p.role, e.now + SESSION_TTL));
    }
  }

  lemma DisableStepKeeps(s: State, e: Event)
    requires Inv(s) && e.TotpDisable?
    ensures Inv(Step(s, e))
  {
    hide UsersOk, VerifySpec, DisableTotpSpec, TotpActive;
    if AsAdmin(s, e.sid, e.now) {
      var name := s.sessions[e.sid].username;
      VerifyKeeps(s.users, name, e.code, e.valid, e.sum, s.sessions);
      DisableKeeps(VerifySpec(s.users, name, e.code, e.valid, e.sum).0, name, s.sessions);
      DisableKeeps(s.users, name, s.sessions);
    }
  }

  lemma ConfirmStepKeeps(s: State, e: Event)
    requires Inv(s) && e.TotpConfirm?
    ensures Inv(Step(s, e))
  {
    hide UsersOk, EnableTotpSpec;
    if AsAdmin(s, e.sid, e.now) {
      var name := s.sessions[e.sid].username;
      if Fold(name) in s.setups {
        EnableKeeps(s.users, name, s.setups[Fold(name)].secret, e.hashes, s.sessions);
      }
    }
  }

  lemma AdminStepKeeps(s: State, e: Event)
    requires Inv(s) && (e.AddUser? || e.DeleteUser? || e.SetPassword? || e.SetRole?)
    ensures Inv(Step(s, e))
  {
    hide UsersOk, AddUserSpec, DeleteUserSpec, SetPasswordSpec, SetRoleSpec, WithoutUser;
    match e
    case AddUser(name, password, hash, role) =>
      AddUserKeeps(s.users, name, password, hash, if role == "" then VIEWER else role, s.sessions);
    case DeleteUser(_, name, now) =>
      if DeleteUserSpec(s.users, name).1 {
        DeleteUserKeeps(s.users, name, s.sessions, now);
      }
    case SetPassword(name, password, hash, now) =>
      if SetPasswordSpec(s.users, name, password, hash).1 {
        SetPasswordKeeps(s.users, name, password, hash, s.sessions, now);
      }
    case SetRole(_, name, role, now) =>
      if SetRoleSpec(s.users, name, role).1 {
        SetRoleKeeps(s.users, name, role, s.sessions, now);
      }
  }

  lemma TokenStepKeeps(s: State, e: Event)
    requires Inv(s) && e.LoginTotp?
    ensures Inv(Step(s, e))
  {
    hide UsersOk, FinishTotp;
    if e.token in s.logins {
      TotpKeeps(s.(logins := s.logins - {e.token}), s.logins[e.token], e);
    }
  }

  lemma FewerStepKeeps(s: State, e: Event)
    requires Inv(s) && (e.Logout? || e.Reap? || e.Restart? || e.TotpBegin?)
    ensures Inv(Step(s, e))
  {
    hide UsersOk, NamesUser;
    FewerSessions(s.users, s.sessions, Step(s, e).sessions);
  }

  lemma StepKeeps(s: State, e: Event)
    requires Inv(s)
    ensures Inv(Step(s, e))
  {
    hide Inv, FinishLogin;
    if e.AddUser? || e.DeleteUser? || e.SetPassword? || e.SetRole? {
      AdminStepKeeps(s, e);
    } else if e.Login? {
      var i := Index(s.users, e.name);
      if i < |s.users| {
        LoginKeeps(s, i, e.token, e.id, e.now);
      }
    } else if e.LoginTotp? {
      TokenStepKeeps(s, e);
    } else if e.TotpConfirm? {
      ConfirmStepKeeps(s, e);
    } else if e.TotpDisable? {
      DisableStepKeeps(s, e);
    } else {
      FewerStepKeeps(s, e);
    }
  }

  function Run(s: State, evs: seq<Event>): State
    decreases |evs|
  {
    if evs == [] then s else Run(Step(s, evs[0]), evs[1..])
  }

  lemma {:induction false} RunKeeps(s: State, evs: seq<Event>)
    requires Inv(s)
    ensures Inv(Run(s, evs))
    decreases |evs|
  {
    hide Inv, Step;
    if evs != [] {
      StepKeeps(s, evs[0]);
      RunKeeps(Step(s, evs[0]), evs[1..]);
    }
  }

  /** The state after setup: one admin, nobody signed in. */
  function Installed(name: string, hash: string): State {
    State.State([User(name, hash, ADMIN, "", false, [])], map[], map[], map[])
  }

  lemma SessionUser(users: seq<User>, s: Session)
    requires UniqueNames(users) && NamesUser(users, s)
    ensures var i := Index(users, s.username); i < |users| && users[i].role == s.role
  {
    var k :| 0 <= k < |users| && Is(users[k], s);
    var i := Index(users, s.username);
    if i < k {
      FoldTransitive(users[i].username, s.username, users[k].username);
    }
  }

  /** From a fresh installation, over every run of requests: each session names the one existing user of
      that name with that user's current role, whatever a pending login remembered; an admin remains;
      names are unique up to case; and only admins have second-factor data. */
  lemma RolesAgree(name: string, hash: string, evs: seq<Event>, id: string)
    requires name != ""
    ensures var s := Run(Installed(name, hash), evs);
            && UniqueNames(s.users) && Admins(s.users) >= 1
            && (forall i :: 0 <= i < |s.users| && s.users[i].role != ADMIN ==> s.users[i] == WithoutTotp(s.users[i]))
            && (id in s.sessions ==>
                  var i := Index(s.users, s.sessions[id].username);
                  i < |s.users| && s.users[i].role == s.sessions[id].role)
  {
    hide Run, NamesUser;
    var start := Installed(name, hash);
    assert AdminsTo(start.users, 0) == 0 && UserOk(start.users[0]);
    RunKeeps(start, evs);
    var s := Run(start, evs);
    if id in s.sessions {
      SessionUser(s.users, s.sessions[id]);
    }
  }

  // ---------------------------------------------------------------- recovery codes

  /** The recovery hashes of the account of that name. */
  function RecoveryOf(users: seq<User>, name: string): seq<string> {
    var i := Index(users, name);
    if i < |users| then users[i].recovery else []
  }

  predicate NoRepeats(hashes: seq<string>) {
    forall i, j :: 0 <= i < j < |hashes| ==> hashes[i] != hashes[j]
  }

  lemma SameIndex(users: seq<User>, i: nat, u: User, name: string, k: nat)
    requires i < |users| && u.username == users[i].username && k <= |users|
    ensures IndexFrom(users[i := u], name, k) == IndexFrom(users, name, k)
    decreases |users| - k
  {
    if k < |users| && !EqualFold(users[k].username, name) {
      SameIndex(users, i, u, name, k + 1);
    }
  }

  /** A recovery code is accepted exactly when its hash is listed, and then it is used up: with hashes
      that do not repeat it is not accepted again, and every other one still is. */
  lemma RecoveryCodeWorksOnce(users: seq<User>, name: string, sum: string, other: string)
    requires NoRepeats(RecoveryOf(users, name))
    ensures var (users', ok) := ConsumeSpec(users, name, sum);
            && (ok <==> sum in RecoveryOf(users, name))
            && !ConsumeSpec(users', name, sum).1
            && (other != sum ==> (other in RecoveryOf(users', name) <==> other in RecoveryOf(users, name)))
            && NoRepeats(RecoveryOf(users', name))
  {
    hide NoRepeats;
    var i := Index(users, name);
    var (users', ok) := ConsumeSpec(users, name, sum);
    if ok {
      var hashes := users[i].recovery;
      var j := HashFrom(hashes, sum, 0);
      var left := hashes[..j] + hashes[j + 1..];
      SameIndex(users, i, users[i].(recovery := left), name, 0);
      assert RecoveryOf(users', name) == left;
      SplicedOut(hashes, j);
      HashMissing(left, sum, 0);
    }
  }

  lemma SplicedOut(hashes: seq<string>, j: nat)
    requires NoRepeats(hashes) && j < |hashes|
    ensures var left := hashes[..j] + hashes[j + 1..];
            && NoRepeats(left) && hashes[j] !in left
            && forall x :: x != hashes[j] ==> (x in left <==> x in hashes)
  {
    var left := hashes[..j] + hashes[j + 1..];
    forall k | 0 <= k < |left| ensures left[k] == hashes[if k < j then k else k + 1] {
    }
    assert hashes == hashes[..j] + [hashes[j]] + hashes[j + 1..];
  }

  lemma {:induction false} HashMissing(hashes: seq<string>, sum: string, k: nat)
    requires sum !in hashes && k <= |hashes|
    ensures HashFrom(hashes, sum, k) == |hashes|
    decreases |hashes| - k
  {
    if k < |hashes| {
      HashMissing(hashes, sum, k + 1);
    }
  }
}
