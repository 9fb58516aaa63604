/** session.go: the session manager as the object it is, one call at a time. Sessions takes the same
    calls apart at their locks to run them concurrently. */
module SessionManager {
  import opened LoginLimiter
  import opened Paths
  import opened Sessions
  import opened Shares  // Option

  const WHITESPACE := " \t\n\r"

  /** A missing entry of `failures` reads as Go's zero value. */
  function EntryOf(failures: map<string, Attempt>, ip: string): Attempt {
    if ip in failures then failures[ip] else FRESH
  }

  class Manager {
    var sessions: Table
    var file: Table
    var failures: map<string, Attempt>

    constructor (file: Table, now: int)
      ensures this.file == file && failures == map[] && sessions == Loaded(file, now)
    {
      sessions, this.file, failures := map[], file, map[];
      new;
      Load(now);
    }

    method Load(now: int)
      requires sessions == map[]
      modifies this`sessions
      ensures sessions == Loaded(file, now)
    {
      var todo := file.Keys;
      while todo != {}
        invariant todo <= file.Keys
        invariant sessions == map id | id in Loaded(file, now) && id !in todo :: file[id]
        decreases |todo|
      {
        var id :| id in todo;
        todo := todo - {id};
        var s := file[id];
        if id == "" || s.username == "" || s.role == "" || Lapsed(s, now) {
          continue;
        }
        sessions := sessions[id := s];
      }
    }

    method Persist(now: int)
      modifies this`file
      ensures file == Snapshot(sessions, now)
    {
      var f: Table := map[];
      var todo := sessions.Keys;
      while todo != {}
        invariant todo <= sessions.Keys
        invariant f == map id | id in Snapshot(sessions, now) && id !in todo :: sessions[id]
        decreases |todo|
      {
        var id :| id in todo;
        todo := todo - {id};
        if !Lapsed(sessions[id], now) {
          f := f[id := sessions[id]];
        }
      }
      file := f;
    }

    /** `id` is the random token, `later` the clock when the file is written. */
    method Create(id: string, username: string, role: string, now: int, later: int)
      modifies this`sessions, this`file
      ensures sessions == old(sessions)[id := Session(username, role, now + SESSION_TTL)]
      ensures file == Snapshot(sessions, later)
    {
      sessions := sessions[id := Session(username, role, now + SESSION_TTL)];
      Persist(later);
    }

    /** Removes `id` and persists, if it was there. */
    method DestroyOne(id: string, now: int)
      modifies this`sessions, this`file
      ensures sessions == old(sessions) - {id}
      ensures file == if id in old(sessions) then Snapshot(sessions, now) else old(file)
      ensures id in old(sessions) ==> id !in file
    {
      if id in sessions {
        sessions := sessions - {id};
        Persist(now);
      }
    }

    method Get(id: string, now: int) returns (s: Option<Session>)
      modifies this`sessions, this`file
      ensures s == if id != "" && id in old(sessions) && !Lapsed(old(sessions)[id], now) then Some(old(sessions)[id])
                   else None
      ensures s.Some? || id == "" || id !in old(sessions) ==> sessions == old(sessions) && file == old(file)
      ensures sessions == old(sessions) - (if s.None? && id != "" then {id} else {})
    {
      if id == "" || id !in sessions {
        return None;
      }
      var cp := sessions[id];
      if Lapsed(cp, now) {
        DestroyOne(id, now);
        return None;
      }
      return Some(cp);
    }

    /** Removes every session of the user, whatever the case of the name. */
    method DestroyByUsername(username: string, now: int)
      modifies this`sessions, this`file
      ensures var name := Trim(username, WHITESPACE);
              var doomed := if name == "" then {}
                            else set x | x in old(sessions) && EqualFold(old(sessions)[x].username, name);
              && sessions == old(sessions) - doomed
              && file == if doomed == {} then old(file) else Snapshot(sessions, now)
    {
      var name := Trim(username, WHITESPACE);
      if name == "" {
        return;
      }
      var changed := false;
      var todo := sessions.Keys;
      while todo != {}
        invariant todo <= old(sessions).Keys && file == old(file)
        invariant forall id :: id in sessions <==>
                    id in old(sessions) && (id in todo || !EqualFold(old(sessions)[id].username, name))
        invariant forall id :: id in sessions ==> sessions[id] == old(sessions)[id]
        invariant changed <==> exists id :: id in old(sessions) && id !in sessions
        decreases |todo|
      {
        var id :| id in todo;
        todo := todo - {id};
        if EqualFold(sessions[id].username, name) {
          sessions := sessions - {id};
          changed := true;
        }
      }
      ghost var doomed := set x | x in old(sessions) && EqualFold(old(sessions)[x].username, name);
      assert sessions == old(sessions) - doomed;
      assert changed <==> doomed != {};
      if changed {
        Persist(now);
      }
    }

    /** The first loop of `reap`. */
    method ReapSessions(now: int) returns (changed: bool)
      modifies this`sessions
      ensures var doomed := set x | x in old(sessions) && now > old(sessions)[x].expiresAt;
              sessions == old(sessions) - doomed && (changed <==> doomed != {})
    {
      changed := false;
      var todo := sessions.Keys;
      while todo != {}
        invariant todo <= old(sessions).Keys
        invariant forall id :: id in sessions <==>
                    id in old(sessions) && (id in todo || !Lapsed(old(sessions)[id], now))
        invariant forall id :: id in sessions ==> sessions[id] == old(sessions)[id]
        invariant changed <==> exists id :: id in old(sessions) && id !in sessions
        decreases |todo|
      {
        var id :| id in todo;
        todo := todo - {id};
        if Lapsed(sessions[id], now) {
          sessions := sessions - {id};
          changed := true;
        }
      }
      ghost var doomed := set x | x in old(sessions) && now > old(sessions)[x].expiresAt;
      assert sessions == old(sessions) - doomed;
      assert changed <==> doomed != {};
    }

    /** The second loop of `reap`. */
    method ReapFailures(now: int)
      modifies this`failures
      ensures forall ip :: EntryOf(failures, ip) == Reaped(EntryOf(old(failures), ip), now)
    {
      var ips := failures.Keys;
      while ips != {}
        invariant ips <= old(failures).Keys
        invariant forall ip :: ip in ips ==> ip in failures && failures[ip] == old(failures)[ip]
        invariant forall ip :: ip !in ips ==> EntryOf(failures, ip) == Reaped(EntryOf(old(failures), ip), now)
        decreases |ips|
      {
        var ip :| ip in ips;
        ips := ips - {ip};
        if Stale(failures[ip], now) {
          failures := failures - {ip};
        }
      }
    }

    /** Drops expired sessions and stale failure entries; every other entry stays. */
    method ReapAll(now: int)
      modifies this
      ensures var doomed := set x | x in old(sessions) && now > old(sessions)[x].expiresAt;
              && sessions == old(sessions) - doomed
              && file == if doomed == {} then old(file) else Snapshot(sessions, now)
      ensures forall ip :: EntryOf(failures, ip) == Reaped(EntryOf(old(failures), ip), now)
    {
      var changed := ReapSessions(now);
      ReapFailures(now);
      if changed {
        Persist(now);
      }
    }

    method AllowLogin(ip: string, now: int, later: int) returns (ok: bool)
      modifies this`failures
      ensures (EntryOf(failures, ip), ok) == Allow(EntryOf(old(failures), ip), now, later)
      ensures failures - {ip} == old(failures) - {ip}
    {
      var a := EntryOf(failures, ip);
      if a.lockedUntil.Some? && now < a.lockedUntil.value {
        return false;
      }
      if a.lockedUntil.Some? && later > a.lockedUntil.value {
        failures := failures[ip := FRESH];
      }
      return true;
    }

    method RecordFailure(ip: string, now: int, later: int)
      modifies this`failures
      ensures EntryOf(failures, ip) == Fail(EntryOf(old(failures), ip), now, later)
      ensures failures - {ip} == old(failures) - {ip}
    {
      var a := EntryOf(failures, ip);
      a := a.(count := a.count + 1, lastFail := Some(now));
      if a.count >= MAX_FAILURES {
        a := a.(lockedUntil := Some(later + LOCK), count := 0);
      }
      failures := failures[ip := a];
    }

    method ClearFailures(ip: string)
      modifies this`failures
      ensures EntryOf(failures, ip) == FRESH && failures == old(failures) - {ip}
    {
      failures := failures - {ip};
    }
  }
}
