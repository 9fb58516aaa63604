/** handlers.go, bulk.go, trash.go, shares.go: the directory tree, the trash and the share table, and
    what each request does to all three. Requests are atomic; `ok` flags say whether a save succeeded.
    The storage root is the root of the tree and no link lies below it. */
module Archive {
  import opened Copier
  import opened Copying
  import opened FileSystem
  import opened Paths
  import opened Resolver
  import opened Shares
  import opened Tree

  const MAX_BULK := 500

  /** A trash record; `path` is where the entry came from. */
  datatype Item = Item(id: string, path: string, name: string, isDir: bool, deletedAt: int)

  /** The tree with the next free node number, the trash records in memory and in trash_info.json, the
      share table, and for every share ever created the node it was created for. */
  datatype World = World(fs: Fs, next: nat, items: seq<Item>, saved: seq<Item>, shares: Store, made: map<string, nat>)

  function ItemPath(id: string): Path {
    ITEMS + [id]
  }

  function Locate(w: World, request: string): Result<Path> {
    Resolve(w.fs, [], request)
  }

  // ---------------------------------------------------------------- move and rename

  /** The checks before the rename: where `src` would land in the directory `dest`. */
  function MoveTarget(fs: Fs, src: Path, dest: Path): Option<Path> {
    if src == [] || src !in fs || (fs[src].Dir? && Inside(src, dest)) then None
    else
      var dst := dest + [Last(src)];
      if src == dst || dst in fs then None else Some(dst)
  }

  /** `os.Rename` and, if it succeeds, the rewriting of the share table. */
  function Relocate(w: World, src: Path, dst: Path, from: string, to: string, ok: bool): (World, bool) {
    match Rename(w.fs, src, dst)
    case Err(_) => (w, false)
    case Ok(fs) => (w.(fs := fs, shares := RewritePathPrefixSpec(w.shares, from, to, ok)), true)
  }

  /** `handleMove`. */
  function MoveSpec(w: World, path: string, destDir: string, ok: bool): (World, bool) {
    var src, dest := Locate(w, path), Locate(w, destDir);
    if IsTrashPath(path) || IsTrashPath(destDir) || src.Err? || dest.Err? || !IsDir(w.fs, dest.value) then (w, false)
    else
      match MoveTarget(w.fs, src.value, dest.value)
      case None => (w, false)
      case Some(dst) =>
        Relocate(w, src.value, dst, Trim(path, "/"), PathJoinSpec([Trim(destDir, "/"), Last(src.value)]), ok)
  }

  /** Does the request name the storage root itself? */
  predicate NamesRoot(request: string) {
    CleanRooted(Slashed(request)) == []
  }

  /** `handleRename` of anything but the root. */
  function RenameSpec(w: World, oldPath: string, newName: string, ok: bool): (r: (World, bool))
    requires !NamesRoot(oldPath)
  {
    var src, name := Locate(w, oldPath), SanitizeName(newName);
    if src.Err? || src.value == [] || name == "" then (w, false)
    else
      var dst := Parent(src.value) + [name];
      var newRel := PathJoinSpec([PathDir(oldPath), name]);
      if Locate(w, newRel).Err? || src.value !in w.fs || dst in w.fs then (w, false)
      else Relocate(w, src.value, dst, Trim(oldPath, "/"), newRel, ok)
  }

  /** One iteration of `handleBulkMove`. */
  function MoveOne(w: World, path: string, dest: Path, destDir: string, ok: bool): (World, bool) {
    var rel := Trim(path, "/");
    if rel == "" || IsTrashPath(rel) || Locate(w, rel).Err? then (w, false)
    else
      var src := Locate(w, rel).value;
      match MoveTarget(w.fs, src, dest)
      case None => (w, false)
      case Some(dst) => Relocate(w, src, dst, rel, PathJoinSpec([Trim(destDir, "/"), Last(src)]), ok)
  }

  /** The world, the count and the failures after the first `n` paths. */
  datatype Bulk = Bulk(w: World, moved: nat, failed: seq<string>)

  function Tally(p: Bulk, step: (World, bool), path: string): Bulk {
    if step.1 then Bulk(step.0, p.moved + 1, p.failed) else Bulk(step.0, p.moved, p.failed + [Trim(path, "/")])
  }

  function BulkMoveTo(w: World, paths: seq<string>, dest: Path, destDir: string, oks: seq<bool>, n: nat): Bulk
    requires n <= |paths| == |oks|
  {
    if n == 0 then Bulk(w, 0, [])
    else
      var before := BulkMoveTo(w, paths, dest, destDir, oks, n - 1);
      Tally(before, MoveOne(before.w, paths[n - 1], dest, destDir, oks[n - 1]), paths[n - 1])
  }

  /** `uniqueNonEmptyPaths` of the first `n` paths. */
  function UniqueTo(paths: seq<string>, n: nat): seq<string>
    requires n <= |paths|
  {
    if n == 0 then []
    else
      var p := Trim(Slashed(paths[n - 1]), "/");
      UniqueTo(paths, n - 1) + if p == "" || p in UniqueTo(paths, n - 1) then [] else [p]
  }

  function Unique(paths: seq<string>): seq<string> {
    UniqueTo(paths, |paths|)
  }

  /** `handleBulkMove`; None where it answers with an error before the loop. */
  function BulkMoveSpec(w: World, given: seq<string>, destDir: string, oks: seq<bool>): Option<Bulk>
    requires |oks| == |Unique(given)|
  {
    var paths := Unique(given);
    var dest := Locate(w, destDir);
    if |paths| == 0 || |paths| > MAX_BULK || IsTrashPath(destDir) || dest.Err? || !IsDir(w.fs, dest.value) then None
    else Some(BulkMoveTo(w, paths, dest.value, destDir, oks, |paths|))
  }

  // ---------------------------------------------------------------- trash

  function WithItems(w: World, items: seq<Item>, ok: bool): World {
    w.(items := items, saved := if ok then items else w.saved)
  }

  /** `moveToTrash`: when the record cannot be saved, the rename is undone. */
  function MoveToTrash(w: World, path: string, id: string, now: int, ok: bool): (World, bool) {
    var rel := Trim(path, "/");
    if rel == "" || IsTrashPath(rel) || Locate(w, rel).Err? || Locate(w, rel).value !in w.fs then (w, false)
    else
      var src, dst := Locate(w, rel).value, ItemPath(id);
      match MkdirAll(w.fs, ITEMS, w.next)
      case Err(_) => (w, false)
      case Ok(ready) =>
        match Rename(ready, src, dst)
        case Err(_) => (w.(fs := ready), false)
        case Ok(fs) =>
          var item := Item(id, rel, Base(rel), w.fs[src].Dir?, now);
          if ok then (WithItems(w.(fs := fs), w.items + [item], true), true)
          else
            match Rename(fs, dst, src)
            case Err(_) => (w.(fs := fs), false)
            case Ok(back) => (w.(fs := back), false)
  }

  /** Trashing an entry takes its shares with it. */
  function TrashAndUnshare(w: World, path: string, id: string, now: int, ok: bool, ok2: bool): (World, bool) {
    var (w', done) := MoveToTrash(w, path, id, now, ok);
    if done then (w'.(shares := RemoveByPathPrefixSpec(w'.shares, Trim(path, "/"), ok2)), true) else (w', false)
  }

  /** `handleDelete`. */
  function DeleteSpec(w: World, path: string, confirmName: string, id: string, now: int, ok: bool,
                      ok2: bool): (World, bool) {
    var rel := Trim(path, "/");
    var target := Locate(w, path);
    if rel == "" || IsTrashPath(rel) || target.Err? || target.value !in w.fs then (w, false)
    else if target.value == [] || (w.fs[target.value].Dir? && confirmName != Last(target.value)) then (w, false)
    else TrashAndUnshare(w, rel, id, now, ok, ok2)
  }

  /** Whether the two saves of one iteration succeed: that of the trash records and that of the share table. */
  datatype Saves = Saves(trash: bool, shares: bool)

  function BulkDeleteTo(w: World, paths: seq<string>, ids: seq<string>, now: int, oks: seq<Saves>, n: nat): Bulk
    requires n <= |paths| == |ids| == |oks|
  {
    if n == 0 then Bulk(w, 0, [])
    else
      var before := BulkDeleteTo(w, paths, ids, now, oks, n - 1);
      var step := TrashAndUnshare(before.w, paths[n - 1], ids[n - 1], now, oks[n - 1].trash, oks[n - 1].shares);
      Tally(before, step, paths[n - 1])
  }

  /** `handleBulkDelete`; `ids` are the random tokens it draws. */
  function BulkDeleteSpec(w: World, given: seq<string>, ids: seq<string>, now: int, oks: seq<Saves>): Option<Bulk>
    requires |oks| == |ids| == |Unique(given)|
  {
    var paths := Unique(given);
    if |paths| == 0 || |paths| > MAX_BULK then None else Some(BulkDeleteTo(w, paths, ids, now, oks, |paths|))
  }

  function ItemFrom(items: seq<Item>, id: string, k: nat): (i: nat)
    requires k <= |items|
    ensures k <= i <= |items|
    ensures i < |items| ==> items[i].id == id
    decreases |items| - k
  {
    if k == |items| || items[k].id == id then k else ItemFrom(items, id, k + 1)
  }

  function ItemAt(items: seq<Item>, id: string): nat {
    ItemFrom(items, id, 0)
  }

  function Dropped(items: seq<Item>, i: nat): seq<Item>
    requires i < |items|
  {
    items[..i] + items[i + 1..]
  }

  /** `restore`; the result says whether the caller was told of success. */
  function RestoreSpec(w: World, id: string, ok: bool): (World, bool) {
    if !ValidShareToken(id) || ItemAt(w.items, id) == |w.items| then (w, false)
    else
      var i := ItemAt(w.items, id);
      var src, dest := ItemPath(id), Locate(w, w.items[i].path);
      if src !in w.fs then (WithItems(w, Dropped(w.items, i), ok), false)
      else if dest.Err? || IsTrashPath(w.items[i].path) || dest.value == [] then (w, false)
      else
        match MkdirAll(w.fs, Parent(dest.value), w.next)
        case Err(_) => (w, false)
        case Ok(ready) =>
          var w' := w.(fs := ready, next := w.next + |dest.value|);
          if dest.value in ready then (w', false)
          else
            match Rename(ready, src, dest.value)
            case Err(_) => (w', false)
            case Ok(fs) => (WithItems(w'.(fs := fs), Dropped(w.items, i), ok), ok)
  }

  /** `purge`: an unknown id still removes what lies on disk under it. */
  function PurgeSpec(w: World, id: string, ok: bool): (World, bool) {
    if !ValidShareToken(id) then (w, false)
    else
      var i, w' := ItemAt(w.items, id), w.(fs := RemoveAll(w.fs, ItemPath(id)));
      if i == |w.items| then (w', false) else (WithItems(w', Dropped(w.items, i), ok), ok)
  }

  function RemoveStored(fs: Fs, ids: seq<string>, n: nat): Fs
    requires n <= |ids|
  {
    if n == 0 then fs else RemoveAll(RemoveStored(fs, ids, n - 1), ItemPath(ids[n - 1]))
  }

  function Ids(items: seq<Item>): (ids: seq<string>)
    ensures |ids| == |items| && forall i :: 0 <= i < |items| ==> ids[i] == items[i].id
  {
    seq(|items|, i requires 0 <= i < |items| => items[i].id)
  }

  /** `empty`: every recorded entry, then whatever else lies in the items directory. */
  function EmptySpec(w: World, ok: bool): (World, bool) {
    var w' := WithItems(w.(fs := RemoveStored(w.fs, Ids(w.items), |w.items|)), [], ok);
    if !ok then (w', false)
    else
      var orphans := ReadDir(w'.fs, ITEMS);
      (w'.(fs := RemoveStored(w'.fs, orphans, |orphans|)), true)
  }

  /** The records `purgeExpired` keeps among the first `n`, and the ids it removes. */
  function KeptTo(items: seq<Item>, cutoff: int, n: nat): seq<Item>
    requires n <= |items|
  {
    if n == 0 then [] else KeptTo(items, cutoff, n - 1) + if items[n - 1].deletedAt < cutoff then [] else [items[n - 1]]
  }

  function StaleTo(items: seq<Item>, cutoff: int, n: nat): seq<string>
    requires n <= |items|
  {
    if n == 0 then []
    else StaleTo(items, cutoff, n - 1) + if items[n - 1].deletedAt < cutoff then [items[n - 1].id] else []
  }

  function PurgeExpiredSpec(w: World, cutoff: int, ok: bool): World {
    var stale := StaleTo(w.items, cutoff, |w.items|);
    var w' := w.(fs := RemoveStored(w.fs, stale, |stale|));
    if |stale| > 0 then WithItems(w', KeptTo(w.items, cutoff, |w.items|), ok) else w'
  }

  // ---------------------------------------------------------------- requests that add entries

  function Create(w: World, p: Path, node: Node): (World, bool) {
    if p == [] || p in w.fs || !IsDir(w.fs, Parent(p)) then (w, false)
    else (w.(fs := w.fs[p := node], next := w.next + 1), true)
  }

  /** `handleMkdir`. */
  function MkdirSpec(w: World, path: string, name: string): (World, bool) {
    var dir, n := Locate(w, path), SanitizeName(name);
    if IsTrashPath(path) || IsTrashPath(PathJoinSpec([path, name])) || dir.Err? || n == "" || '\0' in n then (w, false)
    else Create(w, dir.value + [n], Dir(w.next))
  }

  /** The folders `uploadManager.init` makes for a folder upload. */
  function UploadFoldersSpec(w: World, destRel: string): (World, bool) {
    var dir := Locate(w, destRel);
    if IsTrashPath(destRel) || dir.Err? then (w, false)
    else
      match MkdirAll(w.fs, dir.value, w.next)
      case Err(_) => (w, false)
      case Ok(fs) => (w.(fs := fs, next := w.next + |dir.value| + 1), true)
  }

  /** The destination file of `uploadManager.complete`, its temporary name being free. */
  function UploadSpec(w: World, path: string, name: string, data: Bytes): (World, bool) {
    var dir, final := Locate(w, path), Locate(w, PathJoinSpec([path, name]));
    if dir.Err? || !IsDir(w.fs, dir.value) || final.Err? || final.value == [] then (w, false)
    else if Parent(final.value) + [Last(final.value) + ".uploading"] in w.fs then (w, false)
    else Create(w, final.value, File(w.next, data))
  }

  /** `handleUpload`: one file in one request. */
  function DirectUploadSpec(w: World, path: string, filename: string, data: Bytes): (World, bool) {
    var dir, n := Locate(w, path), SanitizeName(filename);
    if IsTrashPath(path) || n == "" || '\0' in n || dir.Err? || !IsDir(w.fs, dir.value) then (w, false)
    else Create(w, dir.value + [n], File(w.next, data))
  }

  /** `handleDropUpload` into a shared folder; `nanos` is the clock that the last name to try is made from. */
  function DropUploadSpec(w: World, sharePath: string, filename: string, nanos: nat, data: Bytes): (World, bool) {
    var dir, n := Locate(w, sharePath), SanitizeName(filename);
    if n == "" || '\0' in n || dir.Err? || !IsDir(w.fs, dir.value) then (w, false)
    else Create(w, dir.value + [UniqueName(w.fs, dir.value, n, 0, nanos)], File(w.next, data))
  }

  /** A copy under the chosen name, with the removal that follows a failure: an entry that stood under that name
      goes as well. */
  ghost function CopyChosen(w: World, c: Choice): (World, bool)
    requires WellFormed(w.fs) && (c.Chosen? ==> c.src in w.fs)
  {
    match c
    case Refused(_) => (w, false)
    case Chosen(src, dir, name) =>
      var (fs, ok) := CopyOrRollBack(w.fs, w.next, src, dir + [name]);
      (w.(fs := fs, next := CopyPathSpec(w.fs, w.next, src, dir + [name]).next), ok)
  }

  /** `handleCopy`. */
  ghost function CopySpec(w: World, path: string, destDir: string, nanos: nat): (World, bool)
    requires WellFormed(w.fs)
  {
    CopyChosen(w, CopyChoice(w.fs, [], path, destDir, nanos))
  }

  /** `handleDuplicate`. */
  ghost function DuplicateSpec(w: World, path: string, nanos: nat): (World, bool)
    requires WellFormed(w.fs)
  {
    CopyChosen(w, DuplicateChoice(w.fs, [], path, nanos))
  }

  // ---------------------------------------------------------------- shares

  /** `create`. */
  function CreateShareSpec(w: World, token: string, relPath: string, kind: string, mode: Mode, now: int,
                           ok: bool): (World, bool) {
    var rel := Trim(relPath, "/");
    var p := Locate(w, rel);
    if rel == "" || p.Err? || p.value !in w.fs then (w, false)
    else
      match NewShare(token, relPath, w.fs[p.value].Dir?, kind, mode, now)
      case None => (w, false)
      case Some(sh) =>
        (w.(shares := AppendSpec(w.shares, sh, now, ok), made := w.made[token := w.fs[p.value].ino]), ok)
  }

  /** The operations of the share store that touch no path. */
  predicate KeepsPaths(op: Op) {
    !op.Append? && !op.RemoveByPathPrefix? && !op.RewritePathPrefix? && !op.Restart?
  }
}
