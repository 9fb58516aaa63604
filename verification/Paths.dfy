/** Slash-separated path strings as the server handles them: the string helpers of
    Go's `strings` and `path/filepath` packages that it calls, its own `pathJoin`,
    `pathDir` and `sanitizeName`, and the correspondence between path strings and
    sequences of names on which the rest of the model rests. */
module Paths {

  type Name = string
  type Path = seq<Name>

  // ---------------------------------------------------------------- strings

  function TrimLeft(s: string, cut: string): string {
    if s != "" && s[0] in cut then TrimLeft(s[1..], cut) else s
  }

  function TrimRight(s: string, cut: string): string {
    if s != "" && s[|s| - 1] in cut then TrimRight(s[..|s| - 1], cut) else s
  }

  /** `strings.Trim`. */
  function Trim(s: string, cut: string): string {
    TrimRight(TrimLeft(s, cut), cut)
  }

  predicate HasPrefix(s: string, prefix: string) {
    prefix <= s
  }

  /** `strings.ReplaceAll(s, "\\", "/")`. */
  function Slashed(s: string): string {
    seq(|s|, i requires 0 <= i < |s| => if s[i] == '\\' then '/' else s[i])
  }

  /** `strings.ReplaceAll(s, c, "")` for a single character. */
  function Without(s: string, c: char): string {
    if s == "" then ""
    else if s[0] == c then Without(s[1..], c)
    else [s[0]] + Without(s[1..], c)
  }

  /** `strings.Split(s, "/")`: the pieces between slashes, at least one. */
  function Split(s: string): (parts: seq<string>)
    ensures |parts| >= 1
    ensures NoSlashes(parts)
  {
    if s == "" then [""]
    else
      var rest := Split(s[1..]);
      if s[0] == '/' then [""] + rest else [[s[0]] + rest[0]] + rest[1..]
  }

  /** `strings.Join(parts, "/")`. */
  function Join(parts: seq<string>): string {
    if |parts| == 0 then ""
    else if |parts| == 1 then parts[0]
    else parts[0] + "/" + Join(parts[1..])
  }

  // ---------------------------------------------------------------- names

  /** A name a directory entry can have. */
  predicate ValidName(n: Name) {
    n != "" && '/' !in n && n != "." && n != ".."
  }

  predicate Hidden(n: Name) {
    n != "" && n[0] == '.'
  }

  /** A name that a request can address: `safePath` refuses a leading dot and turns a
      backslash into a separator. */
  predicate UserName(n: Name) {
    ValidName(n) && !Hidden(n) && '\\' !in n && '\0' !in n
  }

  predicate ValidPath(p: Path) {
    forall i :: 0 <= i < |p| ==> ValidName(p[i])
  }

  predicate UserPath(p: Path) {
    forall i :: 0 <= i < |p| ==> UserName(p[i])
  }

  predicate NoSlashes(parts: seq<string>) {
    forall i :: 0 <= i < |parts| ==> '/' !in parts[i]
  }

  /** A path string that is spelled exactly as its cleaned form. */
  predicate Canonical(s: string) {
    s != "" && UserPath(Split(s))
  }

  // ---------------------------------------------------------------- filepath

  /** `filepath.Clean` of a rooted path, as the stack machine its documentation gives:
      empty and "." pieces vanish, ".." removes the piece before it and disappears at the root. */
  function CleanParts(parts: seq<string>, stack: Path): (out: Path)
    decreases |parts|
  {
    if parts == [] then stack
    else if parts[0] == "" || parts[0] == "." then CleanParts(parts[1..], stack)
    else if parts[0] == ".." then
      CleanParts(parts[1..], if stack == [] then [] else stack[..|stack| - 1])
    else CleanParts(parts[1..], stack + [parts[0]])
  }

  /** The components of `filepath.Clean("/" + s)`. */
  function CleanRooted(s: string): Path {
    CleanParts(Split(s), [])
  }

  /** `filepath.Base`. */
  function Base(s: string): string {
    if s == "" then "."
    else
      var t := TrimRight(s, "/");
      if t == "" then "/" else var parts := Split(t); parts[|parts| - 1]
  }

  /** The result `filepath.Rel(root, target)` gives for two cleaned absolute paths, as components. */
  function RelParts(root: Path, target: Path): Path
    decreases |root|
  {
    if root != [] && target != [] && root[0] == target[0] then RelParts(root[1..], target[1..])
    else seq(|root|, i => "..") + target
  }

  /** `filepath.Rel(root, target)` as the string the server tests. */
  function Rel(root: Path, target: Path): string {
    var parts := RelParts(root, target);
    if parts == [] then "." else Join(parts)
  }

  // ---------------------------------------------------------------- handlers.go helpers

  /** The pieces `pathJoin` keeps. */
  function Kept(parts: seq<string>): seq<string> {
    if parts == [] then []
    else
      var p := Trim(parts[0], "/");
      (if p != "" && p != "." then [p] else []) + Kept(parts[1..])
  }

  function PathJoinSpec(parts: seq<string>): string {
    Join(Kept(parts))
  }

  lemma KeptSnoc(parts: seq<string>, p: string)
    ensures Kept(parts + [p]) == Kept(parts) + Kept([p])
  {
    if parts != [] {
      assert (parts + [p])[1..] == parts[1..] + [p];
      KeptSnoc(parts[1..], p);
    }
  }

  method PathJoin(parts: seq<string>) returns (joined: string)
    ensures joined == PathJoinSpec(parts)
  {
    var cleaned: seq<string> := [];
    for i := 0 to |parts|
      invariant cleaned == Kept(parts[..i])
    {
      var p := Trim(parts[i], "/");
      KeptSnoc(parts[..i], parts[i]);
      assert parts[..i + 1] == parts[..i] + [parts[i]];
      if p != "" && p != "." {
        cleaned := cleaned + [p];
      }
    }
    assert parts[..|parts|] == parts;
    return Join(cleaned);
  }

  /** `pathDir`: everything before the last slash of the trimmed path. */
  function PathDir(s: string): string {
    var parts := Split(Trim(s, "/"));
    Join(parts[..|parts| - 1])
  }

  /** `sanitizeName`. */
  function SanitizeName(name: string): string {
    var n := TrimLeft(Without(Without(Base(name), '\\'), '/'), ".");
    if n == "" || n == "." || n == ".." then "" else n
  }

  /** `isTrashPath`. */
  predicate IsTrashPath(rel: string) {
    var t := Trim(rel, "/");
    t == ".trash" || HasPrefix(t, ".trash/")
  }

  // ---------------------------------------------------------------- strings against components

  lemma {:induction false} JoinSplit(s: string)
    ensures Join(Split(s)) == s
  {
    if s != "" {
      JoinSplit(s[1..]);
      var rest := Split(s[1..]);
      if s[0] == '/' {
        assert Split(s)[1..] == rest;
      } else {
        assert Split(s)[1..] == rest[1..];
        if |rest| > 1 {
          assert Join(Split(s)) == [s[0]] + (rest[0] + "/" + Join(rest[1..]));
        }
      }
    }
  }

  lemma {:induction false} SplitPiece(piece: string, tail: string)
    requires '/' !in piece
    ensures Split(piece) == [piece]
    ensures Split(piece + "/" + tail) == [piece] + Split(tail)
  {
    if piece == "" {
      assert piece + "/" + tail == ['/'] + tail;
    } else {
      assert piece[0] in piece;
      SplitPiece(piece[1..], tail);
      assert [piece[0]] + piece[1..] == piece;
      assert (piece + "/" + tail)[1..] == piece[1..] + "/" + tail;
    }
  }

  /** Joining loses nothing: names without slashes come back from the joined string. */
  lemma {:induction false} SplitJoin(parts: seq<string>)
    requires |parts| >= 1 && NoSlashes(parts)
    ensures Split(Join(parts)) == parts
  {
    if |parts| == 1 {
      SplitPiece(parts[0], "");
    } else {
      SplitJoin(parts[1..]);
      SplitPiece(parts[0], Join(parts[1..]));
    }
  }

  lemma SplitStep(c: char, s: string)
    ensures Split([c] + s) == if c == '/' then [""] + Split(s) else [[c] + Split(s)[0]] + Split(s)[1..]
  {
    assert ([c] + s)[1..] == s;
  }

  lemma ConsAssoc(c: char, a: string, m: string, b: string)
    ensures [c] + (a + m + b) == [c] + a + m + b
  {
  }

  lemma FirstPieceGrows(c: char, a: seq<string>, b: seq<string>)
    requires a != []
    ensures [[c] + (a + b)[0]] + (a + b)[1..] == [[c] + a[0]] + a[1..] + b
    ensures [""] + (a + b) == [""] + a + b
  {
  }

  lemma {:induction false} SplitConcat(a: string, b: string)
    ensures Split(a + "/" + b) == Split(a) + Split(b)
  {
    if a == "" {
      SplitStep('/', b);
      assert a + "/" + b == ['/'] + b;
    } else {
      var c, rest := a[0], a[1..];
      var tail := rest + "/" + b;
      SplitConcat(rest, b);
      SplitStep(c, rest);
      SplitStep(c, tail);
      assert [c] + rest == a;
      assert a + "/" + b == [c] + tail by { ConsAssoc(c, rest, "/", b); }
      FirstPieceGrows(c, Split(rest), Split(b));
    }
  }

  lemma {:induction false} JoinConcat(p: seq<string>, q: seq<string>)
    requires p != [] && q != []
    ensures Join(p + q) == Join(p) + "/" + Join(q)
  {
    if |p| == 1 {
      assert (p + q)[1..] == q;
    } else {
      JoinConcat(p[1..], q);
      assert (p + q)[1..] == p[1..] + q;
    }
  }

  lemma JoinNonEmpty(p: seq<string>)
    requires p != [] && p[0] != ""
    ensures Join(p) != "" && Join(p)[0] == p[0][0]
  {
  }

  /** The textual test `HasPrefix(path, dir + "/")` is exactly "strictly below". */
  lemma StrictlyBelow(p: Path, q: Path)
    requires p != [] && q != []
    requires NoSlashes(p) && NoSlashes(q)
    ensures HasPrefix(Join(p), Join(q) + "/") <==> q < p
  {
    if HasPrefix(Join(p), Join(q) + "/") {
      var tail := Join(p)[|Join(q)| + 1..];
      assert Join(p) == Join(q) + "/" + tail;
      SplitConcat(Join(q), tail);
      SplitJoin(p);
      SplitJoin(q);
    }
    if q < p {
      JoinConcat(q, p[|q|..]);
      assert p == q + p[|q|..];
    }
  }

  /** Replacing the textual prefix replaces the component prefix. */
  lemma SwapPrefix(p: Path, q: Path, n: Path)
    requires q != [] && n != [] && q < p
    ensures |Join(q)| <= |Join(p)|
    ensures Join(n) + Join(p)[|Join(q)|..] == Join(n + p[|q|..])
  {
    assert p == q + p[|q|..];
    JoinConcat(q, p[|q|..]);
    JoinConcat(n, p[|q|..]);
  }

  lemma TrimNoop(s: string, cut: string)
    requires s != "" && s[0] !in cut && s[|s| - 1] !in cut
    ensures TrimRight(s, cut) == s && Trim(s, cut) == s
  {
  }

  lemma {:induction false} TrimLeftStarts(s: string, cut: string)
    ensures var t := TrimLeft(s, cut); t != "" ==> t[0] !in cut
    ensures forall c :: c in TrimLeft(s, cut) ==> c in s
  {
    if s != "" && s[0] in cut {
      TrimLeftStarts(s[1..], cut);
    }
  }

  lemma {:induction false} TrimRightEnds(s: string, cut: string)
    ensures var t := TrimRight(s, cut); t <= s && (t != "" ==> t[|t| - 1] !in cut)
  {
    if s != "" && s[|s| - 1] in cut {
      TrimRightEnds(s[..|s| - 1], cut);
    }
  }

  predicate AllIn(s: string, cut: string) {
    forall i :: 0 <= i < |s| ==> s[i] in cut
  }

  lemma {:induction false} CutLeft(s: string, cut: string) returns (a: string)
    ensures s == a + TrimLeft(s, cut) && AllIn(a, cut)
  {
    a := "";
    if s != "" && s[0] in cut {
      var rest := CutLeft(s[1..], cut);
      a := [s[0]] + rest;
      assert s == [s[0]] + s[1..];
    }
  }

  lemma {:induction false} CutRight(s: string, cut: string) returns (b: string)
    ensures s == TrimRight(s, cut) + b && AllIn(b, cut)
  {
    b := "";
    if s != "" && s[|s| - 1] in cut {
      var rest := CutRight(s[..|s| - 1], cut);
      b := rest + [s[|s| - 1]];
      assert s == s[..|s| - 1] + [s[|s| - 1]];
    }
  }

  /** Trimming takes characters of the cut set off both ends, as many as there are, and nothing else. */
  lemma TrimExactly(s: string, cut: string) returns (a: string, b: string)
    ensures var t := Trim(s, cut);
            && s == a + t + b && AllIn(a, cut) && AllIn(b, cut)
            && (t != "" ==> t[0] !in cut && t[|t| - 1] !in cut)
  {
    hide TrimLeft, TrimRight;
    a := CutLeft(s, cut);
    b := CutRight(TrimLeft(s, cut), cut);
    TrimLeftStarts(s, cut);
    TrimRightEnds(TrimLeft(s, cut), cut);
    assert s == a + (Trim(s, cut) + b);
  }

  /** A request counts as being in the trash exactly when its first piece is ".trash", wherever it leads. */
  lemma TrashPathExactly(rel: string)
    ensures IsTrashPath(rel) <==> Split(Trim(rel, "/"))[0] == ".trash"
  {
    hide Trim, Split;
    var t := Trim(rel, "/");
    SplitPiece(".trash", "");
    if HasPrefix(t, ".trash/") {
      assert t == ".trash" + "/" + t[7..];
      SplitPiece(".trash", t[7..]);
    }
    JoinSplit(t);
    var parts := Split(t);
    if parts[0] == ".trash" && |parts| > 1 {
      assert t == parts[0] + "/" + Join(parts[1..]);
    }
  }

  lemma TrimTwice(s: string)
    ensures Trim(Trim(s, "/"), "/") == Trim(s, "/")
  {
    var t := TrimLeft(s, "/");
    TrimLeftStarts(s, "/");
    TrimRightEnds(t, "/");
    if Trim(s, "/") != "" {
      TrimNoop(Trim(s, "/"), "/");
    }
  }

  lemma {:induction false} JoinLast(p: seq<string>)
    requires p != [] && p[|p| - 1] != ""
    ensures Join(p) != ""
    ensures Join(p)[|Join(p)| - 1] == var l := p[|p| - 1]; l[|l| - 1]
  {
    if |p| > 1 {
      JoinLast(p[1..]);
    }
  }

  /** A path spelled from valid names has no slash at either end, and `Base` is its last name. */
  lemma JoinedPath(p: Path)
    requires p != [] && ValidPath(p)
    ensures Join(p) != "" && Trim(Join(p), "/") == Join(p)
    ensures Split(Join(p)) == p
    ensures Base(Join(p)) == p[|p| - 1]
    ensures PathDir(Join(p)) == Join(p[..|p| - 1])
  {
    hide Join, Split, Trim;
    SplitJoin(p);
    JoinedEnds(p);
    TrimNoop(Join(p), "/");
  }

  lemma JoinedEnds(p: Path)
    requires p != [] && ValidPath(p)
    ensures var s := Join(p);
            s != "" && s[0] !in "/" && s[|s| - 1] !in "/" && TrimRight(s, "/") == s
  {
    hide Join;
    JoinLast(p);
    JoinNonEmpty(p);
    var last := p[|p| - 1];
    assert p[0][0] in p[0] && last[|last| - 1] in last;
  }

  lemma CanonicalJoin(p: Path)
    requires p != [] && UserPath(p)
    ensures Canonical(Join(p)) && Split(Join(p)) == p
  {
    JoinedPath(p);
  }

  lemma {:induction false} CleanNames(parts: Path, stack: Path)
    requires ValidPath(parts)
    ensures CleanParts(parts, stack) == stack + parts
    decreases |parts|
  {
    if parts != [] {
      CleanNames(parts[1..], stack + [parts[0]]);
      assert stack + [parts[0]] + parts[1..] == stack + parts;
    } else {
      assert stack + parts == stack;
    }
  }

  /** Cleaning yields valid names only: no empty piece, no dots to climb with. */
  lemma {:induction false} CleanIsValid(parts: seq<string>, stack: Path)
    requires NoSlashes(parts) && ValidPath(stack)
    ensures ValidPath(CleanParts(parts, stack))
    decreases |parts|
  {
    if parts == [] {
    } else if parts[0] == "" || parts[0] == "." {
      CleanIsValid(parts[1..], stack);
    } else if parts[0] == ".." {
      CleanIsValid(parts[1..], if stack == [] then [] else stack[..|stack| - 1]);
    } else {
      CleanIsValid(parts[1..], stack + [parts[0]]);
    }
  }

  lemma {:induction false} CleanAppend(a: seq<string>, b: seq<string>, stack: Path)
    ensures CleanParts(a + b, stack) == CleanParts(b, CleanParts(a, stack))
    decreases |a|
  {
    if a == [] {
      assert a + b == b;
    } else {
      assert (a + b)[1..] == a[1..] + b;
      if a[0] == "" || a[0] == "." {
        CleanAppend(a[1..], b, stack);
      } else if a[0] == ".." {
        CleanAppend(a[1..], b, if stack == [] then [] else stack[..|stack| - 1]);
      } else {
        CleanAppend(a[1..], b, stack + [a[0]]);
      }
    }
  }

  /** Backslashes become separators and nothing else changes. */
  lemma SlashedPlain(s: string)
    requires '\\' !in s
    ensures Slashed(s) == s
  {
  }

  /** Separators at the ends do not change where a request leads. */
  lemma {:induction false} CleanSkipsLeading(s: string, cut: string)
    requires forall c :: c in cut ==> c == '/' || c == '\\'
    ensures CleanRooted(Slashed(s)) == CleanRooted(Slashed(TrimLeft(s, cut)))
  {
    if s != "" && s[0] in cut {
      assert Slashed(s) == "/" + Slashed(s[1..]);
      SplitStep('/', Slashed(s[1..]));
      assert ['/'] + Slashed(s[1..]) == "/" + Slashed(s[1..]);
      assert ([""] + Split(Slashed(s[1..])))[1..] == Split(Slashed(s[1..]));
      CleanSkipsLeading(s[1..], cut);
    }
  }

  lemma {:induction false} CleanSkipsTrailing(s: string, cut: string)
    requires forall c :: c in cut ==> c == '/' || c == '\\'
    ensures CleanRooted(Slashed(s)) == CleanRooted(Slashed(TrimRight(s, cut)))
  {
    if s != "" && s[|s| - 1] in cut {
      var t := s[..|s| - 1];
      assert Slashed(s) == Slashed(t) + "/" + "";
      SplitConcat(Slashed(t), "");
      CleanAppend(Split(Slashed(t)), [""], []);
      assert CleanParts([""], CleanParts(Split(Slashed(t)), [])) == CleanParts(Split(Slashed(t)), []);
      CleanSkipsTrailing(t, cut);
    }
  }

  lemma {:induction false} NotInJoin(p: seq<string>, c: char)
    requires c != '/' && forall i :: 0 <= i < |p| ==> c !in p[i]
    ensures c !in Join(p)
  {
    if |p| > 1 {
      NotInJoin(p[1..], c);
    }
  }

  lemma {:induction false} RelPrefix(root: Path, target: Path)
    ensures root <= target ==> RelParts(root, target) == target[|root|..]
    ensures !(root <= target) ==> RelParts(root, target) != [] && RelParts(root, target)[0] == ".."
    ensures NoSlashes(target) ==> NoSlashes(RelParts(root, target))
    decreases |root|
  {
    if root != [] && target != [] && root[0] == target[0] {
      RelPrefix(root[1..], target[1..]);
      assert root <= target <==> root[1..] <= target[1..];
    }
  }

  lemma DotsOnly(parts: seq<string>)
    requires parts != [] && NoSlashes(parts)
    ensures parts[0] != "." ==> Join(parts) != "."
    ensures Join(parts) == ".." || HasPrefix(Join(parts), "../") <==> parts[0] == ".."
  {
    var s := Join(parts);
    SplitJoin(parts);
    SplitPiece(".", "");
    SplitPiece("..", "");
    if HasPrefix(s, "../") {
      SplitPiece("..", s[3..]);
      assert s == ".." + "/" + s[3..];
    }
    if parts[0] == ".." && |parts| > 1 {
      assert s == ".." + "/" + Join(parts[1..]);
    }
  }

  /** The server's string tests on `filepath.Rel` decide component-wise containment. */
  lemma RelDecidesContainment(root: Path, target: Path)
    requires ValidPath(root)
    requires ValidPath(target)
    ensures (Rel(root, target) != ".." && !HasPrefix(Rel(root, target), "../")) <==> root <= target
    ensures Rel(root, target) == "." <==> root == target
  {
    RelPrefix(root, target);
    var parts := RelParts(root, target);
    if parts != [] {
      DotsOnly(parts);
    }
  }

  // ---------------------------------------------------------------- where a request leads

  /** Where a request leads. */
  function PlaceOf(rel: string): Path {
    CleanRooted(Slashed(rel))
  }

  lemma {:induction false} TrimLeftKeeps(s: string, cut: string, c: char)
    requires c !in cut
    ensures c in TrimLeft(s, cut) <==> c in s
  {
    if s != "" && s[0] in cut {
      TrimLeftKeeps(s[1..], cut, c);
      assert s == [s[0]] + s[1..];
    }
  }

  lemma {:induction false} TrimRightKeeps(s: string, cut: string, c: char)
    requires c !in cut
    ensures c in TrimRight(s, cut) <==> c in s
  {
    if s != "" && s[|s| - 1] in cut {
      TrimRightKeeps(s[..|s| - 1], cut, c);
      assert s == s[..|s| - 1] + [s[|s| - 1]];
    }
  }

  lemma TrimKeeps(s: string, cut: string, c: char)
    requires c !in cut
    ensures c in Trim(s, cut) <==> c in s
  {
    TrimLeftKeeps(s, cut, c);
    TrimRightKeeps(TrimLeft(s, cut), cut, c);
  }

  /** What `pathJoin` makes of a parent's spelling and a trimmed rest. */
  lemma JoinedBelow(rel: string, rest: string)
    requires rest != "" && rest != "." && Trim(rest, "/") == rest
    ensures var p := Trim(rel, "/");
            PathJoinSpec([rel, rest]) == if p == "" || p == "." then rest else p + "/" + rest
  {
    var p := Trim(rel, "/");
    assert Kept([rest]) == [rest] + Kept([]);
    assert [rel, rest][1..] == [rest];
    assert Kept([rel, rest]) == (if p != "" && p != "." then [p] else []) + [rest];
    if p == "" || p == "." {
      assert [] + [rest] == [rest];
    } else {
      JoinConcat([p], [rest]);
    }
  }

  /** The pieces of a child's path: what is left of the parent's spelling, and the name. */
  lemma JoinedWith(rel: string, name: Name)
    requires ValidName(name)
    ensures var p := Trim(rel, "/");
            PathJoinSpec([rel, name]) == if p == "" || p == "." then name else p + "/" + name
  {
    TrimNoop(name, "/");
    JoinedBelow(rel, name);
  }

  lemma SlashedJoin(a: string, b: string)
    ensures Slashed(a + "/" + b) == Slashed(a) + "/" + Slashed(b)
  {
  }

  /** Trimming slashes does not change where a request leads. */
  lemma TrimmedPlace(s: string)
    ensures PlaceOf(Trim(s, "/")) == PlaceOf(s) && ('\0' in Trim(s, "/") <==> '\0' in s)
  {
    CleanSkipsLeading(s, "/");
    CleanSkipsTrailing(TrimLeft(s, "/"), "/");
    TrimKeeps(s, "/", '\0');
  }

  /** A path below another leads from its place on through the remaining pieces. */
  lemma BelowPlace(rel: string, rest: string)
    requires rest != "" && rest != "." && Trim(rest, "/") == rest
    ensures PlaceOf(PathJoinSpec([rel, rest])) == CleanParts(Split(Slashed(rest)), PlaceOf(rel))
    ensures '\0' in PathJoinSpec([rel, rest]) <==> '\0' in rel || '\0' in rest
  {
    hide PathJoinSpec, CleanParts, Slashed, Trim, Split;
    var p := Trim(rel, "/");
    JoinedBelow(rel, rest);
    TrimmedPlace(rel);
    if p == "" || p == "." {
      NoPlace();
    } else {
      SlashedJoin(p, rest);
      SplitConcat(Slashed(p), Slashed(rest));
      CleanAppend(Split(Slashed(p)), Split(Slashed(rest)), []);
    }
  }

  /** A child's path leads from the parent's place through the pieces of the name. */
  lemma ChildPlace(rel: string, name: Name)
    requires ValidName(name)
    ensures PlaceOf(PathJoinSpec([rel, name])) == CleanParts(Split(Slashed(name)), PlaceOf(rel))
    ensures '\0' in PathJoinSpec([rel, name]) <==> '\0' in rel || '\0' in name
  {
    hide PathJoinSpec, CleanParts, Slashed, Split;
    TrimNoop(name, "/");
    BelowPlace(rel, name);
  }

  lemma NoPlace()
    ensures PlaceOf("") == [] && PlaceOf(".") == []
  {
    assert Slashed("") == "" && Slashed(".") == ".";
    SplitPiece(".", "");
  }

  lemma PlainPieces(name: Name, p: Path)
    requires UserName(name)
    ensures CleanParts(Split(Slashed(name)), p) == p + [name]
  {
    SlashedPlain(name);
    SplitPiece(name, "");
    CleanNames([name], p);
  }
}
