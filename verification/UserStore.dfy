/** users.go and totp.go: the account list and the maps of pending logins and set-ups, changed in place. */
module UserStore {
  import opened Accounts
  import opened Sessions
  import opened Shares  // Option

  lemma {:induction false} IndexAt(users: seq<User>, name: string, k: nat, i: nat)
    requires k <= i <= |users| && forall j :: k <= j < i ==> !EqualFold(users[j].username, name)
    requires i < |users| ==> EqualFold(users[i].username, name)
    ensures IndexFrom(users, name, k) == i
    decreases i - k
  {
    if k < i {
      IndexAt(users, name, k + 1, i);
    }
  }

  lemma {:induction false} HashAt(hashes: seq<string>, sum: string, k: nat, j: nat)
    requires k <= j <= |hashes| && forall x :: k <= x < j ==> hashes[x] != sum
    requires j < |hashes| ==> hashes[j] == sum
    ensures HashFrom(hashes, sum, k) == j
    decreases j - k
  {
    if k < j {
      HashAt(hashes, sum, k + 1, j);
    }
  }

  class Store {
    var users: seq<User>

    constructor (saved: seq<User>)
      ensures users == saved
    {
      users := saved;
    }

    /** The search loop that every method starts with. */
    method Lookup(name: string) returns (i: nat)
      ensures i == Index(users, name)
    {
      i := 0;
      while i < |users| && !EqualFold(users[i].username, name)
        invariant i <= |users| && forall j :: 0 <= j < i ==> !EqualFold(users[j].username, name)
      {
        i := i + 1;
      }
      IndexAt(users, name, 0, i);
    }

    method AdminCount() returns (n: nat)
      ensures n == Admins(users)
    {
      n := 0;
      for i := 0 to |users|
        invariant n == AdminsTo(users, i)
      {
        if users[i].role == ADMIN {
          n := n + 1;
        }
      }
    }

    method AddUser(name: string, password: string, hash: string, role: string) returns (ok: bool)
      modifies this
      ensures (users, ok) == AddUserSpec(old(users), name, password, hash, role)
    {
      var n := TrimSpace(name);
      if n == "" || password == "" || |password| < MIN_PASSWORD || !KnownRole(role) {
        return false;
      }
      var i := Lookup(n);
      if i < |users| {
        return false;
      }
      users := users + [User(n, hash, role, "", false, [])];
      return true;
    }

    method SetPassword(name: string, password: string, hash: string) returns (ok: bool)
      modifies this
      ensures (users, ok) == SetPasswordSpec(old(users), name, password, hash)
    {
      var n := TrimSpace(name);
      if n == "" || password == "" || |password| < MIN_PASSWORD {
        return false;
      }
      var i := Lookup(n);
      if i == |users| {
        return false;
      }
      users := users[i := users[i].(passwordHash := hash)];
      return true;
    }

    method SetRole(name: string, role: string) returns (ok: bool)
      modifies this
      ensures (users, ok) == SetRoleSpec(old(users), name, role)
    {
      if !KnownRole(role) {
        return false;
      }
      var i := Lookup(TrimSpace(name));
      if i == |users| {
        return false;
      }
      if users[i].role == ADMIN && role != ADMIN {
        var admins := AdminCount();
        if admins <= 1 {
          return false;
        }
      }
      users := users[i := users[i].(role := role)];
      if role != ADMIN {
        users := users[i := users[i].(secret := "", enabled := false, recovery := [])];
        assert users == old(users)[i := WithoutTotp(old(users)[i].(role := role))];
      }
      return true;
    }

    method DeleteUser(name: string) returns (ok: bool)
      modifies this
      ensures (users, ok) == DeleteUserSpec(old(users), name)
    {
      var i := Lookup(TrimSpace(name));
      if i == |users| {
        return false;
      }
      if users[i].role == ADMIN {
        var admins := AdminCount();
        if admins <= 1 {
          return false;
        }
      }
      users := users[..i] + users[i + 1..];
      return true;
    }

    /** The secret and a copy of the recovery hashes, for an admin who has the second factor on. */
    method TotpSecret(name: string) returns (secret: string, hashes: seq<string>, ok: bool)
      ensures ok <==> TotpActive(users, name)
      ensures ok ==> var u := users[Index(users, name)]; secret == u.secret != "" && hashes == u.recovery
      ensures !ok ==> secret == "" && hashes == []
    {
      var i := Lookup(name);
      if i == |users| || !(users[i].role == ADMIN && users[i].enabled && users[i].secret != "") {
        return "", [], false;
      }
      return users[i].secret, users[i].recovery, true;
    }

    method EnableTotp(name: string, secret: string, hashes: seq<string>) returns (ok: bool)
      modifies this
      ensures (users, ok) == EnableTotpSpec(old(users), name, secret, hashes)
    {
      var i := Lookup(name);
      if i == |users| || users[i].role != ADMIN {
        return false;
      }
      users := users[i := users[i].(secret := secret, enabled := true, recovery := hashes)];
      return true;
    }

    method DisableTotp(name: string) returns (ok: bool)
      modifies this
      ensures (users, ok) == DisableTotpSpec(old(users), name)
    {
      var i := Lookup(name);
      if i == |users| {
        return false;
      }
      users := users[i := users[i].(secret := "", enabled := false, recovery := [])];
      return true;
    }

    method ConsumeRecoveryCode(name: string, sum: string) returns (ok: bool)
      modifies this
      ensures (users, ok) == ConsumeSpec(old(users), name, sum)
    {
      var i := Lookup(name);
      if i == |users| {
        return false;
      }
      var hashes := users[i].recovery;
      var j := 0;
      while j < |hashes| && hashes[j] != sum
        invariant j <= |hashes| && forall x :: 0 <= x < j ==> hashes[x] != sum
      {
        j := j + 1;
      }
      HashAt(hashes, sum, 0, j);
      if j == |hashes| {
        return false;
      }
      users := users[i := users[i].(recovery := hashes[..j] + hashes[j + 1..])];
      return true;
    }

    /** `verifyTOTPOrRecovery`. */
    method VerifyTotpOrRecovery(name: string, code: string, valid: bool, sum: string) returns (ok: bool)
      modifies this
      ensures (users, ok) == VerifySpec(old(users), name, code, valid, sum)
    {
      var _, _, active := TotpSecret(name);
      var c := TrimSpace(code);
      if !active || c == "" {
        return false;
      }
      if valid {
        return true;
      }
      if |c| >= 12 {
        ok := ConsumeRecoveryCode(name, sum);
        return;
      }
      return false;
    }
  }

  /** The globals `pendingLogins` and `pendingSetups`. */
  class PendingTotp {
    var logins: map<string, Pending>
    var setups: map<string, Setup>

    constructor ()
      ensures logins == map[] && setups == map[]
    {
      logins, setups := map[], map[];
    }

    /** Drops what has expired and adds the new token. */
    method PutLogin(token: string, name: string, role: string, now: int)
      modifies this`logins
      ensures logins == Accounts.PutLogin(old(logins), token, name, role, now)
    {
      var todo := logins.Keys;
      while todo != {}
        invariant todo <= old(logins).Keys
        invariant forall t :: t in logins <==> t in old(logins) && (t in todo || now <= old(logins)[t].expiresAt)
        invariant forall t :: t in logins ==> logins[t] == old(logins)[t]
        decreases |todo|
      {
        var t :| t in todo;
        todo := todo - {t};
        if now > logins[t].expiresAt {
          logins := logins - {t};
        }
      }
      assert logins == Unexpired(old(logins), now);
      logins := logins[token := Pending(name, role, now + PENDING_TTL)];
    }

    /** A token works once, and only until it expires. */
    method TakeLogin(token: string, now: int) returns (p: Option<Pending>)
      modifies this`logins
      ensures logins == old(logins) - {token}
      ensures p == if token in old(logins) && now <= old(logins)[token].expiresAt then Some(old(logins)[token])
                   else None
    {
      if token !in logins {
        return None;
      }
      var found := logins[token];
      logins := logins - {token};
      return if now > found.expiresAt then None else Some(found);
    }

    method PutSetup(name: string, secret: string, now: int)
      modifies this`setups
      ensures setups == old(setups)[Fold(name) := Setup(secret, now + PENDING_TTL)]
    {
      setups := setups[Fold(name) := Setup(secret, now + PENDING_TTL)];
    }

    method TakeSetup(name: string, now: int) returns (secret: Option<string>)
      modifies this`setups
      ensures setups == old(setups) - {Fold(name)}
      ensures secret == if Fold(name) in old(setups) && now <= old(setups)[Fold(name)].expiresAt
                        then Some(old(setups)[Fold(name)].secret) else None
    {
      if Fold(name) !in setups {
        return None;
      }
      var found := setups[Fold(name)];
      setups := setups - {Fold(name)};
      return if now > found.expiresAt then None else Some(found.secret);
    }
  }
}
