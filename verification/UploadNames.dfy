/** upload.go: the name of an upload, which may be a relative path, checked piece by piece before anything is
    cleaned, and where the upload goes. */
module UploadNames {
  import opened Paths
  import opened Shares  // Option

  /** The checks of one piece. */
  predicate Accepts(part: string) {
    && part != "" && part != "." && part != ".." && !HasPrefix(part, ".")
    && SanitizeName(part) == part
  }

  /** The pieces of the name as `init` reads them. */
  function Parts(name: string): seq<string> {
    Split(Slashed(Trim(name, "/")))
  }

  /** The loop over the pieces, and the directory and file that are left of an accepted name. */
  method CheckName(name: string) returns (r: Option<(string, string)>)
    ensures r.Some? <==> Trim(name, "/") != "" && forall i :: 0 <= i < |Parts(name)| ==> Accepts(Parts(name)[i])
    ensures r.Some? ==> var parts := Parts(name); r.value == (Join(parts[..|parts| - 1]), parts[|parts| - 1])
  {
    var rel := Slashed(Trim(name, "/"));
    if rel == "" {
      return None;
    }
    assert Trim(name, "/") != "";
    var parts := Split(rel);
    for i := 0 to |parts|
      invariant forall k :: 0 <= k < i ==> Accepts(parts[k])
    {
      if !Accepts(parts[i]) {
        assert !Accepts(Parts(name)[i]);
        return None;
      }
    }
    return Some((Join(parts[..|parts| - 1]), parts[|parts| - 1]));
  }

  lemma {:induction false} NothingWithout(s: string, c: char)
    requires c !in s
    ensures Without(s, c) == s
  {
    if s != "" {
      NothingWithout(s[1..], c);
    }
  }

  /** A piece is accepted exactly when it is not empty and does not start with a dot. */
  lemma AcceptsExactly(part: string)
    requires '/' !in part && '\\' !in part
    ensures Accepts(part) <==> part != "" && part[0] != '.'
  {
    if part != "" && part[0] != '.' {
      JoinedPath([part]);
      NothingWithout(part, '\\');
      NothingWithout(part, '/');
      assert TrimLeft(part, ".") == part;
    }
  }

  lemma {:induction false} PartsPlain(s: string)
    ensures forall i :: 0 <= i < |Split(Slashed(s))| ==> '/' !in Split(Slashed(s))[i] && '\\' !in Split(Slashed(s))[i]
  {
    var parts := Split(Slashed(s));
    JoinSplit(Slashed(s));
    forall i | 0 <= i < |parts| ensures '\\' !in parts[i] {
      if '\\' in parts[i] {
        InJoin(parts, i, '\\');
      }
    }
  }

  lemma {:induction false} InJoin(parts: seq<string>, i: nat, c: char)
    requires i < |parts| && c in parts[i]
    ensures c in Join(parts)
  {
    if i > 0 {
      InJoin(parts[1..], i - 1, c);
    }
  }

  /** A name is accepted exactly when every piece between slashes or backslashes can be the name of a visible
      entry; and then the upload goes through these very pieces below the directory asked for, one level for
      each, whatever that directory is called by: no piece is dropped, and none climbs. */
  lemma UploadGoesExactly(destPath: string, name: string)
    ensures var parts := Parts(name);
            var good := forall i :: 0 <= i < |parts| ==> parts[i] != "" && parts[i][0] != '.';
            && (good <==> Trim(name, "/") != "" && forall i :: 0 <= i < |parts| ==> Accepts(parts[i]))
            && (good ==>
                  var sub, base := Join(parts[..|parts| - 1]), parts[|parts| - 1];
                  var destRel := if sub != "" then PathJoinSpec([Trim(destPath, "/"), sub]) else Trim(destPath, "/");
                  && PlaceOf(destRel) == PlaceOf(destPath) + parts[..|parts| - 1]
                  && PlaceOf(PathJoinSpec([destRel, base])) == PlaceOf(destPath) + parts)
  {
    hide Split, Join, Trim, CleanRooted, PathJoinSpec, Accepts;
    var parts := Parts(name);
    PartsPlain(Trim(name, "/"));
    forall i | 0 <= i < |parts| ensures Accepts(parts[i]) <==> parts[i] != "" && parts[i][0] != '.' {
      AcceptsExactly(parts[i]);
    }
    EmptyHasOnePiece();
    if forall i :: 0 <= i < |parts| ==> parts[i] != "" && parts[i][0] != '.' {
      var dir, base := parts[..|parts| - 1], parts[|parts| - 1];
      TrimmedPlace(destPath);
      var destRel := if Join(dir) != "" then PathJoinSpec([Trim(destPath, "/"), Join(dir)]) else Trim(destPath, "/");
      if dir == [] {
        EmptyJoin();
        assert PlaceOf(destPath) + [] == PlaceOf(destPath);
      } else {
        JoinedPath(dir);
        Descends(Trim(destPath, "/"), dir);
      }
      JoinedPath([base]);
      OnePiece(base);
      Descends(destRel, [base]);
      assert PlaceOf(destPath) + dir + [base] == PlaceOf(destPath) + parts;
    }
  }

  lemma EmptyHasOnePiece()
    ensures Split(Slashed("")) == [""]
  {
    assert Slashed("") == "";
  }

  lemma EmptyJoin()
    ensures Join([]) == ""
  {
  }

  lemma OnePiece(base: string)
    ensures Join([base]) == base
  {
  }

  /** Plain pieces joined to a path lead from its place through all of them. */
  lemma Descends(rel: string, pieces: seq<string>)
    requires pieces != [] && forall i :: 0 <= i < |pieces| ==>
               pieces[i] != "" && pieces[i][0] != '.' && '/' !in pieces[i] && '\\' !in pieces[i]
    ensures PlaceOf(PathJoinSpec([rel, Join(pieces)])) == PlaceOf(rel) + pieces
  {
    hide Join, Trim, PathJoinSpec, Split, CleanRooted;
    JoinedPath(pieces);
    NotInJoin(pieces, '\\');
    SlashedPlain(Join(pieces));
    NotDot(pieces);
    BelowPlace(rel, Join(pieces));
    CleanNames(pieces, PlaceOf(rel));
  }

  lemma NotDot(pieces: seq<string>)
    requires pieces != [] && forall i :: 0 <= i < |pieces| ==> pieces[i] != "" && pieces[i][0] != '.'
    ensures Join(pieces) != "" && Join(pieces) != "."
  {
  }
}
