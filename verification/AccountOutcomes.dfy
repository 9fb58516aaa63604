/** users.go, totp.go, users_admin.go: when each request about accounts and logins succeeds, and what it then
    changes, in terms of the accounts themselves. */
module AccountOutcomes {
  import opened Paths
  import Sessions
  import opened Accounts

  // ---------------------------------------------------------------- finding an account

  /** The first account of that name, up to case. */
  predicate Names(users: seq<User>, name: string, i: nat) {
    i < |users| && Sessions.EqualFold(users[i].username, name)
    && forall j :: 0 <= j < i ==> !Sessions.EqualFold(users[j].username, name)
  }

  predicate Nobody(users: seq<User>, name: string) {
    forall j :: 0 <= j < |users| ==> !Sessions.EqualFold(users[j].username, name)
  }

  lemma IndexMeaning(users: seq<User>, name: string)
    ensures var i := Index(users, name); if i < |users| then Names(users, name, i) else Nobody(users, name)
    ensures forall i: nat :: Names(users, name, i) ==> Index(users, name) == i
  {
  }

  /** Is some other account an admin? */
  predicate OtherAdmin(users: seq<User>, i: nat) {
    exists k :: 0 <= k < |users| && k != i && users[k].role == "admin"
  }

  lemma {:induction false} AdminsExist(users: seq<User>, n: nat)
    requires n <= |users|
    ensures AdminsTo(users, n) > 0 <==> exists k :: 0 <= k < n && users[k].role == "admin"
  {
    if n > 0 {
      AdminsExist(users, n - 1);
    }
  }

  /** An admin is the last one exactly when the count is one. */
  lemma {:induction false} AdminsBeside(users: seq<User>, i: nat, n: nat)
    requires i < n <= |users| && users[i].role == "admin"
    ensures AdminsTo(users, n) >= 1
    ensures AdminsTo(users, n) > 1 <==> exists k :: 0 <= k < n && k != i && users[k].role == "admin"
    decreases n
  {
    if n == i + 1 {
      AdminsExist(users, i);
    } else {
      AdminsBeside(users, i, n - 1);
    }
  }

  // ---------------------------------------------------------------- changing accounts

  /** An account is added exactly when the trimmed name, the password and the role will do and nobody has the
      name up to case; it goes to the end, without a second factor. */
  lemma AddUserExactly(users: seq<User>, name: string, password: string, hash: string, role: string)
    ensures var (users', ok) := AddUserSpec(users, name, password, hash, role);
            && (ok <==> TrimSpace(name) != "" && |password| >= 8 && (role == "admin" || role == "viewer")
                        && Nobody(users, TrimSpace(name)))
            && users' == if ok then users + [User(TrimSpace(name), hash, role, "", false, [])] else users
  {
    IndexMeaning(users, TrimSpace(name));
  }

  /** A password is set exactly when it is long enough and somebody has the name; nothing else changes. */
  lemma SetPasswordExactly(users: seq<User>, name: string, password: string, hash: string)
    ensures var (users', ok) := SetPasswordSpec(users, name, password, hash);
            && (ok <==> TrimSpace(name) != "" && |password| >= 8 && !Nobody(users, TrimSpace(name)))
            && (!ok ==> users' == users)
            && (ok ==> forall i: nat :: Names(users, TrimSpace(name), i) ==>
                  users' == users[i := users[i].(passwordHash := hash)])
  {
    IndexMeaning(users, TrimSpace(name));
  }

  /** A role is changed exactly when it is a known one, somebody has the name, and it does not take the role from
      the last admin. Only that account changes; one that is no admin any more loses its second factor. */
  lemma SetRoleExactly(users: seq<User>, name: string, role: string, i: nat)
    requires Names(users, TrimSpace(name), i)
    ensures var (users', ok) := SetRoleSpec(users, name, role);
            && (ok <==> role == "admin" || (role == "viewer" && (users[i].role != "admin" || OtherAdmin(users, i))))
            && (!ok ==> users' == users)
            && (ok && role == "admin" ==> users' == users[i := users[i].(role := "admin")])
            && (ok && role == "viewer" ==>
                  users' == users[i := users[i].(role := "viewer", secret := "", enabled := false, recovery := [])])
  {
    IndexMeaning(users, TrimSpace(name));
    if users[i].role == "admin" {
      AdminsBeside(users, i, |users|);
    }
  }

  /** An account is deleted exactly when it is not the last admin; the others stay in order. */
  lemma DeleteUserExactly(users: seq<User>, name: string, i: nat)
    requires Names(users, TrimSpace(name), i)
    ensures var (users', ok) := DeleteUserSpec(users, name);
            && (ok <==> users[i].role != "admin" || OtherAdmin(users, i))
            && users' == if ok then users[..i] + users[i + 1..] else users
  {
    IndexMeaning(users, TrimSpace(name));
    if users[i].role == "admin" {
      AdminsBeside(users, i, |users|);
    }
  }

  /** For a name that nobody has, nothing happens. */
  lemma NobodyChanges(users: seq<User>, name: string, role: string, secret: string, hashes: seq<string>)
    requires Nobody(users, name) && Nobody(users, TrimSpace(name))
    ensures SetRoleSpec(users, name, role) == DeleteUserSpec(users, name) == (users, false)
    ensures EnableTotpSpec(users, name, secret, hashes) == DisableTotpSpec(users, name) == (users, false)
    ensures !Active(users, name) && !TotpActive(users, name)
  {
    IndexMeaning(users, name);
    IndexMeaning(users, TrimSpace(name));
  }

  // ---------------------------------------------------------------- the second factor

  /** An admin account of that name has the second factor on. */
  ghost predicate Active(users: seq<User>, name: string) {
    exists i: nat :: Names(users, name, i) && users[i].role == "admin" && users[i].enabled && users[i].secret != ""
  }

  lemma ActiveMeaning(users: seq<User>, name: string)
    ensures TotpActive(users, name) <==> Active(users, name)
  {
    IndexMeaning(users, name);
    if TotpActive(users, name) {
      assert Names(users, name, Index(users, name));
    }
  }

  /** The second factor is enabled for admins only, and with a secret it is then on. */
  lemma EnableExactly(users: seq<User>, name: string, secret: string, hashes: seq<string>, i: nat)
    requires Names(users, name, i)
    ensures var (users', ok) := EnableTotpSpec(users, name, secret, hashes);
            && (ok <==> users[i].role == "admin")
            && (!ok ==> users' == users)
            && (ok ==> users' == users[i := users[i].(secret := secret, enabled := true, recovery := hashes)])
            && (ok ==> Names(users', name, i) && (Active(users', name) <==> secret != ""))
  {
    IndexMeaning(users, name);
    if users[i].role == "admin" {
      IndexMeaning(users[i := users[i].(secret := secret, enabled := true, recovery := hashes)], name);
      assert Names(users[i := users[i].(secret := secret, enabled := true, recovery := hashes)], name, i);
    }
  }

  /** Disabling turns it off, whatever the role, and touches nothing else. */
  lemma DisableExactly(users: seq<User>, name: string, i: nat)
    requires Names(users, name, i)
    ensures var (users', ok) := DisableTotpSpec(users, name);
            ok && users' == users[i := users[i].(secret := "", enabled := false, recovery := [])]
            && !Active(users', name)
  {
    IndexMeaning(users, name);
    var users' := users[i := users[i].(secret := "", enabled := false, recovery := [])];
    IndexMeaning(users', name);
    assert Names(users', name, i);
  }

  /** What counts as the right code: one that the authenticator accepts, or an unused recovery code of at least
      twelve characters, for an account with the second factor on. */
  ghost predicate RightCode(users: seq<User>, name: string, code: string, valid: bool, sum: string) {
    && Active(users, name) && TrimSpace(code) != ""
    && (valid || (|TrimSpace(code)| >= 12 && sum in RecoveryOf(users, name)))
  }

  /** Only the recovery hash `sum` of one account is gone, once. */
  predicate Spent(users: seq<User>, users': seq<User>, name: string, sum: string) {
    && |users'| == |users|
    && forall i: nat :: i < |users| ==>
         if Names(users, name, i) then
           && users'[i] == users[i].(recovery := users'[i].recovery)
           && multiset(users'[i].recovery) == multiset(users[i].recovery) - multiset{sum}
         else users'[i] == users[i]
  }

  /** A code is accepted exactly when it is right; an accepted authenticator code changes nothing, an accepted
      recovery code is used up, and a refused one changes nothing. */
  lemma VerifyExactly(users: seq<User>, name: string, code: string, valid: bool, sum: string)
    ensures var (users', ok) := VerifySpec(users, name, code, valid, sum);
            && (ok <==> RightCode(users, name, code, valid, sum))
            && (if ok && !valid then sum in RecoveryOf(users, name) && Spent(users, users', name, sum)
                else users' == users)
  {
    ActiveMeaning(users, name);
    IndexMeaning(users, name);
    if TotpActive(users, name) {
      ConsumeExactly(users, name, sum, Index(users, name));
    }
  }

  lemma ConsumeExactly(users: seq<User>, name: string, sum: string, i: nat)
    requires Names(users, name, i)
    ensures var (users', ok) := ConsumeSpec(users, name, sum);
            && (ok <==> sum in RecoveryOf(users, name))
            && (if ok then Spent(users, users', name, sum) else users' == users)
  {
    IndexMeaning(users, name);
    var hashes := users[i].recovery;
    var j := HashFrom(hashes, sum, 0);
    if j < |hashes| {
      assert hashes == hashes[..j] + [sum] + hashes[j + 1..];
    }
  }

  // ---------------------------------------------------------------- requests

  /** The login that waits behind the token, while it lasts. */
  predicate Waiting(s: State, token: string, now: int) {
    token in s.logins && now <= s.logins[token].expiresAt
  }

  /** The second step of a login opens a session exactly for a token that still waits and a right code, for the
      account and role that it waits for. A wrong code puts the login back under a new token for five more minutes;
      either way the token is used up. */
  lemma LoginTotpExactly(s: State, e: Event)
    requires e.LoginTotp?
    ensures var s' := Step(s, e);
            if !Waiting(s, e.token, e.now) then s' == s.(logins := s.logins - {e.token})
            else
              var p := s.logins[e.token];
              var ok := RightCode(s.users, p.username, e.code, e.valid, e.sum);
              && s'.setups == s.setups
              && (if ok && !e.valid then Spent(s.users, s'.users, p.username, e.sum) else s'.users == s.users)
              && s'.sessions == (if ok
                  then s.sessions[e.id := Sessions.Session(p.username, p.role, e.now + 604_800_000_000_000)]
                                 else s.sessions)
              && (ok ==> s'.logins == s.logins - {e.token})
              && (!ok ==>
                    && e.again in s'.logins
                    && s'.logins[e.again] == Pending(p.username, p.role, e.now + 300_000_000_000)
                    && forall t :: t != e.again ==>
                         && (t in s'.logins <==> t in s.logins && t != e.token && e.now <= s.logins[t].expiresAt)
                         && (t in s'.logins ==> s'.logins[t] == s.logins[t]))
  {
    hide VerifySpec, RightCode, Spent;
    if e.token in s.logins {
      VerifyExactly(s.users, s.logins[e.token].username, e.code, e.valid, e.sum);
    } else {
      assert s.logins - {e.token} == s.logins;
    }
  }

  /** The first step of a login does something exactly for an existing name and the right password. An admin with
      the second factor on gets a waiting login and no session; everybody else gets a session, with the name as
      registered and the current role. */
  lemma LoginExactly(s: State, e: Event, i: nat)
    requires e.Login? && Names(s.users, e.name, i)
    ensures var s' := Step(s, e);
            var u := s.users[i];
            && s'.users == s.users && s'.setups == s.setups
            && s'.sessions ==
                 (if e.passwordOk && !Active(s.users, u.username)
                  then s.sessions[e.id :=
                         Sessions.Session(u.username, u.role, e.now + 604_800_000_000_000)] else s.sessions)
            && (if e.passwordOk && Active(s.users, u.username) then
                  && e.token in s'.logins
                  && s'.logins[e.token] == Pending(u.username, u.role, e.now + 300_000_000_000) && u.role == "admin"
                  && forall t :: t != e.token ==>
                       && (t in s'.logins <==> t in s.logins && e.now <= s.logins[t].expiresAt)
                       && (t in s'.logins ==> s'.logins[t] == s.logins[t])
                else s'.logins == s.logins)
  {
    IndexMeaning(s.users, e.name);
    ActiveMeaning(s.users, s.users[i].username);
    SameName(s.users, e.name, i);
    IndexMeaning(s.users, s.users[i].username);
  }

  lemma SameName(users: seq<User>, name: string, i: nat)
    requires Names(users, name, i)
    ensures Names(users, users[i].username, i)
  {
  }

  /** An unknown name gets nothing. */
  lemma LoginNobody(s: State, e: Event)
    requires e.Login? && Nobody(s.users, e.name)
    ensures Step(s, e) == s
  {
    IndexMeaning(s.users, e.name);
  }

  /** A session of an admin that has not expired. */
  predicate AdminHere(s: State, sid: string, now: int) {
    sid in s.sessions && now <= s.sessions[sid].expiresAt && s.sessions[sid].role == "admin"
  }

  /** The second factor is turned off exactly by an admin's own session with the right password and, where it is
      on, the right code; otherwise nothing changes at all. */
  lemma TotpDisableExactly(s: State, e: Event, i: nat)
    requires e.TotpDisable? && AdminHere(s, e.sid, e.now) && Names(s.users, s.sessions[e.sid].username, i)
    ensures var s' := Step(s, e);
            var name := s.sessions[e.sid].username;
            var ok := e.passwordOk && (Active(s.users, name) ==> RightCode(s.users, name, e.code, e.valid, e.sum));
            && s'.sessions == s.sessions && s'.logins == s.logins && s'.setups == s.setups
            && s'.users == (if ok then s.users[i := s.users[i].(secret := "", enabled := false, recovery := [])]
                            else s.users)
  {
    hide VerifySpec, DisableTotpSpec, TotpActive, RightCode, Active, Spent, Names;
    var name := s.sessions[e.sid].username;
    ActiveMeaning(s.users, name);
    VerifyExactly(s.users, name, e.code, e.valid, e.sum);
    var users' := VerifySpec(s.users, name, e.code, e.valid, e.sum).0;
    DisableExactly(s.users, name, i);
    if RightCode(s.users, name, e.code, e.valid, e.sum) {
      AfterVerify(s.users, users', name, e.sum, i);
    }
  }

  /** Spending a recovery code first makes no difference to what disabling leaves. */
  lemma AfterVerify(users: seq<User>, users': seq<User>, name: string, sum: string, i: nat)
    requires Names(users, name, i) && (users' == users || Spent(users, users', name, sum))
    ensures DisableTotpSpec(users', name).0 == users[i := users[i].(secret := "", enabled := false, recovery := [])]
  {
    assert Names(users', name, i);
    DisableExactly(users', name, i);
    var cleared := users[i := users[i].(secret := "", enabled := false, recovery := [])];
    assert users'[i := users'[i].(secret := "", enabled := false, recovery := [])] == cleared;
  }

  /** Nobody else can: without an admin's session the request does nothing. */
  lemma NotAdmin(s: State, e: Event)
    requires e.TotpDisable? || e.TotpBegin? || e.TotpConfirm?
    requires !AdminHere(s, e.sid, e.now)
    ensures Step(s, e) == s
  {
  }

  /** Setting up starts exactly for an admin's session whose account does not have it on yet. */
  lemma TotpBeginExactly(s: State, e: Event)
    requires e.TotpBegin? && AdminHere(s, e.sid, e.now)
    ensures var name := s.sessions[e.sid].username;
            Step(s, e) == if Active(s.users, name) then s
                          else s.(setups := s.setups[Sessions.Fold(name) := Setup(e.secret, e.now + 300_000_000_000)])
  {
    ActiveMeaning(s.users, s.sessions[e.sid].username);
  }

  /** A set-up begun for the account, in whatever case its name is written, that has not expired. */
  predicate SetupWaits(s: State, name: string, now: int) {
    Sessions.Fold(name) in s.setups && now <= s.setups[Sessions.Fold(name)].expiresAt
  }

  /** It is confirmed exactly by a valid code while the set-up waits; the secret is the one of the set-up. */
  lemma TotpConfirmExactly(s: State, e: Event, i: nat)
    requires e.TotpConfirm? && AdminHere(s, e.sid, e.now) && Names(s.users, s.sessions[e.sid].username, i)
    ensures var s' := Step(s, e);
            var name := s.sessions[e.sid].username;
            && s'.sessions == s.sessions && s'.logins == s.logins
            && (!(SetupWaits(s, name, e.now) && e.valid) ==> s' == s)
            && (SetupWaits(s, name, e.now) && e.valid ==>
                  && s'.setups == s.setups - {Sessions.Fold(name)}
                  && s'.users == if s.users[i].role != "admin" then s.users
                                 else s.users[i := s.users[i].(
                                   secret := s.setups[Sessions.Fold(name)].secret, enabled := true,
                                                               recovery := e.hashes)])
  {
    EnableExactly(s.users, s.sessions[e.sid].username, if SetupWaits(s, s.sessions[e.sid].username, e.now)
                  then s.setups[Sessions.Fold(s.sessions[e.sid].username)].secret else "", e.hashes, i);
  }

  // ---------------------------------------------------------------- administering

  /** The sessions of one account are dropped, all of them and no others. */
  ghost predicate SignedOut(t: Sessions.Table, t': Sessions.Table, name: string) {
    forall id :: (id in t' <==> id in t && !Sessions.EqualFold(t[id].username, name)) && (id in t' ==> t'[id] == t[id])
  }

  lemma WithoutUserExactly(t: Sessions.Table, name: string, now: int)
    ensures if TrimSpace(name) == "" then WithoutUser(t, name, now) == t
            else SignedOut(t, WithoutUser(t, name, now), TrimSpace(name))
  {
  }

  lemma NamedNonEmpty(users: seq<User>, name: string, i: nat)
    requires Names(users, name, i) && users[i].username != ""
    ensures name != ""
  {
    assert |Sessions.Fold(users[i].username)| == |Sessions.Fold(name)|;
  }

  /** Changing a password, a role, or deleting an account signs the account out everywhere exactly when it
      succeeds, and touches no pending login or set-up. */
  lemma AdminRequestsExactly(s: State, e: Event, i: nat)
    requires e.SetPassword? || e.SetRole? || e.DeleteUser?
    requires Names(s.users, TrimSpace(e.name), i) && s.users[i].username != ""
    ensures var s' := Step(s, e);
            var r := match e
              case SetPassword(name, password, hash, _) => SetPasswordSpec(s.users, name, password, hash)
              case SetRole(_, name, role, _) => SetRoleSpec(s.users, name, role)
              case _ => DeleteUserSpec(s.users, e.name);
            var allowed := match e
              case SetPassword(_, _, _, _) => true
              case SetRole(actor, name, role, _) => !Sessions.EqualFold(actor, name) || role == "admin"
              case _ => !Sessions.EqualFold(e.actor, e.name);
            && s'.logins == s.logins && s'.setups == s.setups
            && s'.users == (if allowed && r.1 then r.0 else s.users)
            && (if allowed && r.1 then SignedOut(s.sessions, s'.sessions, TrimSpace(e.name))
                else s'.sessions == s.sessions)
  {
    hide SetPasswordSpec, SetRoleSpec, DeleteUserSpec, WithoutUser, SignedOut;
    NamedNonEmpty(s.users, TrimSpace(e.name), i);
    WithoutUserExactly(s.sessions, e.name, e.now);
    SetRoleExactly(s.users, e.name, if e.SetRole? then e.role else "admin", i);
    DeleteUserExactly(s.users, e.name, i);
    SetPasswordExactly(s.users, e.name, if e.SetPassword? then e.password else "", "");
  }

  /** A new account signs nobody in; without a role it is a viewer. */
  lemma AddUserRequest(s: State, e: Event)
    requires e.AddUser?
    ensures Step(s, e) ==
              s.(users := AddUserSpec(s.users, e.name, e.password, e.hash, if e.role == "" then "viewer" else e.role).0)
  {
  }

  /** Signing out removes that session; reaping removes the expired ones; a restart keeps the unexpired ones that
      are complete and forgets what waits in memory. */
  lemma SignOutExactly(s: State, e: Event)
    requires e.Logout? || e.Reap? || e.Restart?
    ensures var s' := Step(s, e);
            && s'.users == s.users
            && (e.Restart? ==> s'.logins == map[] && s'.setups == map[])
            && (!e.Restart? ==> s'.logins == s.logins && s'.setups == s.setups)
            && forall id ::
                 && (id in s'.sessions <==>
                       && id in s.sessions
                       && (e.Logout? ==> id != e.sid)
                       && (!e.Logout? ==> e.now <= s.sessions[id].expiresAt)
                       && (e.Restart? ==> id != "" && s.sessions[id].username != "" && s.sessions[id].role != ""))
                 && (id in s'.sessions ==> s'.sessions[id] == s.sessions[id])
  {
  }
}
