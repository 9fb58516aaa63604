/** shares.go: the path checks that keep a public folder share inside its folder. */
module ShareServing {
  import opened Paths
  import opened FileSystem
  import opened Resolver

  /** The inside path as both handlers read it from the URL. */
  function InsidePath(inside: string): string {
    Trim(Slashed(inside), "/")
  }

  /** The containment test of both handlers: `!HasPrefix(filepath.Rel(shared, target), "..")`. */
  predicate TextuallyInside(shared: Path, target: Path) {
    !HasPrefix(Rel(shared, target), "..")
  }

  /** `serveShareContent` up to its `os.Stat`: the target it goes on to open. */
  function ContentTarget(fs: Fs, root: Path, sharePath: string, isDir: bool, inside: string): (r: Result<Path>) {
    var rel := InsidePath(inside);
    if rel != "" && !isDir then Err(BadPath)
    else
      var targetRel := if rel != "" then PathJoinSpec([sharePath, rel]) else sharePath;
      match Resolve(fs, root, targetRel)
      case Err(e) => Err(e)
      case Ok(target) =>
        if isDir then
          match Resolve(fs, root, sharePath)
          case Err(e) => Err(e)
          case Ok(shared) => if TextuallyInside(shared, target) then Ok(target) else Err(Traversal)
        else if targetRel != sharePath then Err(Traversal)
        else Ok(target)
  }

  /** `serveShareFile` up to its `os.Stat`. */
  function FileTarget(fs: Fs, root: Path, sharePath: string, isDir: bool, inside: string): (r: Result<Path>) {
    var rel := InsidePath(inside);
    if !isDir || rel == "" then Err(BadPath)
    else
      match Resolve(fs, root, PathJoinSpec([sharePath, rel]))
      case Err(e) => Err(e)
      case Ok(target) =>
        match Resolve(fs, root, sharePath)
        case Err(e) => Err(e)
        case Ok(shared) => if TextuallyInside(shared, target) then Ok(target) else Err(Traversal)
  }

  /** On arbitrary paths the textual test is stricter than containment: it also refuses a
      contained target whose first name starts with two dots. */
  lemma TextualTestExactly(shared: Path, target: Path)
    requires ValidPath(shared) && ValidPath(target)
    ensures TextuallyInside(shared, target) <==>
              shared <= target && (shared == target || !HasPrefix(target[|shared|], ".."))
  {
    RelPrefix(shared, target);
    var parts := RelParts(shared, target);
    if parts != [] {
      FirstTwo(parts);
    }
  }

  lemma FirstTwo(parts: seq<string>)
    requires parts != [] && NoSlashes(parts)
    ensures HasPrefix(Join(parts), "..") <==> HasPrefix(parts[0], "..")
  {
    var s := Join(parts);
    assert parts[0] <= s;
    if |s| >= 2 && |parts[0]| < 2 {
      assert s[|parts[0]|] == '/';
    }
  }

  /** On what the resolver returns the textual test is exactly component-wise containment. */
  lemma TextualTestOnResolved(fs: Fs, root: Path, shared: Path, target: Path)
    requires Contained(fs, root, shared) && Contained(fs, root, target)
    ensures TextuallyInside(shared, target) <==> shared <= target
  {
    TextualTestExactly(shared, target);
    if shared < target {
      var n := target[|shared|];
      assert n == target[|root|..][|shared| - |root|];
      assert !Hidden(n);
    }
  }

  /** Whatever a visitor asks for inside a folder share, an accepted target lies in the folder
      the share resolves to, and opening it reaches nothing else. Both handlers accept exactly
      the targets that resolve and lie in that folder. */
  lemma ServedInsideShare(fs: Fs, root: Path, sharePath: string, inside: string)
    requires RootReady(fs, root)
    ensures var rel := InsidePath(inside);
            var asked := Resolve(fs, root, if rel != "" then PathJoinSpec([sharePath, rel]) else sharePath);
            var shared := Resolve(fs, root, sharePath);
            var served := ContentTarget(fs, root, sharePath, true, inside);
            && (served.Ok? <==> asked.Ok? && shared.Ok? && shared.value <= asked.value)
            && (served.Ok? ==> served == asked && Contained(fs, root, served.value))
            && (rel != "" ==> (FileTarget(fs, root, sharePath, true, inside).Ok? <==> served.Ok?))
            && (FileTarget(fs, root, sharePath, true, inside).Ok? ==>
                  FileTarget(fs, root, sharePath, true, inside) == served)
  {
    var rel := InsidePath(inside);
    var targetRel := if rel != "" then PathJoinSpec([sharePath, rel]) else sharePath;
    ResolveContained(fs, root, targetRel);
    ResolveContained(fs, root, sharePath);
    var asked, shared := Resolve(fs, root, targetRel), Resolve(fs, root, sharePath);
    if asked.Ok? && shared.Ok? {
      TextualTestOnResolved(fs, root, shared.value, asked.value);
    }
  }

  /** A file share serves its own path, and only when nothing is asked for inside it. */
  lemma FileShareServesItself(fs: Fs, root: Path, sharePath: string, inside: string)
    requires RootReady(fs, root)
    ensures FileTarget(fs, root, sharePath, false, inside).Err?
    ensures var served := ContentTarget(fs, root, sharePath, false, inside);
            && served == (if InsidePath(inside) == "" then Resolve(fs, root, sharePath) else Err(BadPath))
            && (served.Ok? ==> Contained(fs, root, served.value))
  {
    ResolveContained(fs, root, sharePath);
  }
}
