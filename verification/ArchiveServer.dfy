/** handlers.go, bulk.go, trash.go: the server's state as the objects it is, and the request handlers
    that change the tree, the trash records and the share store in place. */
module ArchiveServer {
  import opened Copier
  import opened FileSystem
  import opened Paths
  import opened Resolver
  import opened Shares
  import opened Tree
  import opened Archive

  lemma {:induction false} ItemFound(items: seq<Item>, id: string, k: nat, i: nat)
    requires k <= i <= |items| && forall j :: k <= j < i ==> items[j].id != id
    requires i < |items| ==> items[i].id == id
    ensures ItemFrom(items, id, k) == i
    decreases i - k
  {
    if k < i {
      ItemFound(items, id, k + 1, i);
    }
  }

  lemma {:induction false} UniqueMembers(paths: seq<string>, n: nat, p: string)
    requires n <= |paths|
    ensures p in UniqueTo(paths, n) <==> p != "" && exists i :: 0 <= i < n && Trim(Slashed(paths[i]), "/") == p
  {
    if n > 0 {
      UniqueMembers(paths, n - 1, p);
    }
  }

  lemma {:induction false} UniqueDistinct(paths: seq<string>, n: nat)
    requires n <= |paths|
    ensures forall i, j :: 0 <= i < j < |UniqueTo(paths, n)| ==> UniqueTo(paths, n)[i] != UniqueTo(paths, n)[j]
  {
    if n > 0 {
      UniqueDistinct(paths, n - 1);
    }
  }

  /** `uniqueNonEmptyPaths`: every path once, cleaned of backslashes and outer slashes, none empty. */
  method UniqueNonEmptyPaths(paths: seq<string>) returns (out: seq<string>)
    ensures out == Unique(paths)
    ensures forall i, j :: 0 <= i < j < |out| ==> out[i] != out[j]
    ensures forall p :: p in out <==> p != "" && exists i :: 0 <= i < |paths| && Trim(Slashed(paths[i]), "/") == p
  {
    out := [];
    var seen: set<string> := {};
    for n := 0 to |paths|
      invariant out == UniqueTo(paths, n)
      invariant forall p :: p in seen <==> p in out
    {
      var p := Trim(Slashed(paths[n]), "/");
      if p == "" || p in seen {
        continue;
      }
      seen := seen + {p};
      out := out + [p];
    }
    UniqueDistinct(paths, |paths|);
    forall p ensures p in out <==> p != "" && exists i :: 0 <= i < |paths| && Trim(Slashed(paths[i]), "/") == p {
      UniqueMembers(paths, |paths|, p);
    }
  }

  class Server {
    var fs: Fs
    var next: nat
    var items: seq<Item>
    var saved: seq<Item>
    const shares: ShareStore
    ghost var made: map<string, nat>

    ghost function View(): World
      reads this, shares
    {
      World(fs, next, items, saved, shares.View(), made)
    }

    /** `openTrashStore` makes the trash directory and reads the records. */
    constructor (fs: Fs, next: nat, recorded: seq<Item>, shares: ShareStore, ghost made: map<string, nat>)
      requires MkdirAll(fs, ITEMS, next).Ok?
      ensures this.shares == shares
      ensures View() == World(MkdirAll(fs, ITEMS, next).value, next + 3, recorded, recorded, shares.View(), made)
    {
      this.fs, this.next := MkdirAll(fs, ITEMS, next).value, next + 3;
      items, saved := recorded, recorded;
      this.shares := shares;
      this.made := made;
    }

    method SaveLocked(ok: bool)
      modifies this`saved
      ensures saved == if ok then items else old(saved)
    {
      if ok {
        saved := items;
      }
    }

    /** `os.Rename` followed by the rewriting of the share table. */
    method RenameAndRewrite(src: Path, dst: Path, from: string, to: string, ok: bool) returns (done: bool)
      modifies this, shares
      ensures (View(), done) == Relocate(old(View()), src, dst, from, to, ok)
    {
      var renamed := Rename(fs, src, dst);
      if renamed.Err? {
        return false;
      }
      fs := renamed.value;
      shares.RewritePathPrefix(from, to, ok);
      return true;
    }

    method HandleMove(path: string, destDir: string, ok: bool) returns (done: bool)
      modifies this, shares
      ensures (View(), done) == MoveSpec(old(View()), path, destDir, ok)
    {
      if IsTrashPath(path) || IsTrashPath(destDir) {
        return false;
      }
      var source, target := Resolve(fs, [], path), Resolve(fs, [], destDir);
      if source.Err? || target.Err? || !IsDir(fs, target.value) {
        return false;
      }
      var src, dest := source.value, target.value;
      if src == [] || src !in fs || (fs[src].Dir? && Inside(src, dest)) {
        return false;
      }
      var dst := dest + [Last(src)];
      if src == dst || dst in fs {
        return false;
      }
      done := RenameAndRewrite(src, dst, Trim(path, "/"), PathJoinSpec([Trim(destDir, "/"), Last(src)]), ok);
    }

    method HandleRename(oldPath: string, newName: string, ok: bool) returns (done: bool)
      requires !NamesRoot(oldPath)
      modifies this, shares
      ensures (View(), done) == RenameSpec(old(View()), oldPath, newName, ok)
    {
      var source, name := Resolve(fs, [], oldPath), SanitizeName(newName);
      if source.Err? || source.value == [] || name == "" {
        return false;
      }
      var src := source.value;
      var dst := Parent(src) + [name];
      var newRel := PathJoin([PathDir(oldPath), name]);
      if Resolve(fs, [], newRel).Err? || src !in fs || dst in fs {
        return false;
      }
      done := RenameAndRewrite(src, dst, Trim(oldPath, "/"), newRel, ok);
    }

    /** The body of the loop in `handleBulkMove`. */
    method BulkMoveOne(path: string, dest: Path, destDir: string, ok: bool) returns (done: bool)
      modifies this, shares
      ensures (View(), done) == MoveOne(old(View()), path, dest, destDir, ok)
    {
      var rel := Trim(path, "/");
      if rel == "" || IsTrashPath(rel) {
        return false;
      }
      var source := Resolve(fs, [], rel);
      if source.Err? {
        return false;
      }
      var src := source.value;
      if src == [] || src !in fs || (fs[src].Dir? && Inside(src, dest)) {
        return false;
      }
      var dst := dest + [Last(src)];
      if src == dst || dst in fs {
        return false;
      }
      done := RenameAndRewrite(src, dst, rel, PathJoinSpec([Trim(destDir, "/"), Last(src)]), ok);
    }

    method HandleBulkMove(given: seq<string>, destDir: string, oks: seq<bool>)
      returns (answered: bool, moved: nat, failed: seq<string>)
      requires |oks| == |Unique(given)|
      modifies this, shares
      ensures var r := BulkMoveSpec(old(View()), given, destDir, oks);
              && answered == r.Some?
              && (r.Some? ==> r.value == Bulk(View(), moved, failed))
              && (r.None? ==> View() == old(View()))
    {
      hide MoveOne, UniqueTo, Resolve, IsTrashPath, CleanRooted, Trim;
      var paths := UniqueNonEmptyPaths(given);
      moved, failed := 0, [];
      var target := Resolve(fs, [], destDir);
      if |paths| == 0 || |paths| > MAX_BULK || IsTrashPath(destDir) || target.Err? || !IsDir(fs, target.value) {
        return false, moved, failed;
      }
      var dest := target.value;
      for i := 0 to |paths|
        invariant Bulk(View(), moved, failed) == BulkMoveTo(old(View()), paths, dest, destDir, oks, i)
      {
        var done := BulkMoveOne(paths[i], dest, destDir, oks[i]);
        if done {
          moved := moved + 1;
        } else {
          failed := failed + [Trim(paths[i], "/")];
        }
      }
      return true, moved, failed;
    }

    method MoveToTrash(path: string, id: string, now: int, ok: bool) returns (done: bool)
      modifies this
      ensures (View(), done) == Archive.MoveToTrash(old(View()), path, id, now, ok)
    {
      hide Rename, MkdirAll, Resolve, IsTrashPath, Trim, Base, ItemPath;
      var rel := Trim(path, "/");
      if rel == "" || IsTrashPath(rel) {
        return false;
      }
      var source := Resolve(fs, [], rel);
      if source.Err? || source.value !in fs {
        return false;
      }
      var src, dst := source.value, ItemPath(id);
      var item := Item(id, rel, Base(rel), fs[src].Dir?, now);
      var ready := MkdirAll(fs, ITEMS, next);
      if ready.Err? {
        return false;
      }
      fs := ready.value;
      var renamed := Rename(fs, src, dst);
      if renamed.Err? {
        return false;
      }
      fs := renamed.value;
      items := items + [item];
      SaveLocked(ok);
      if !ok {
        var back := Rename(fs, dst, src);
        if back.Ok? {
          fs := back.value;
        }
        items := items[..|items| - 1];
        assert items == old(items);
        return false;
      }
      return true;
    }

    /** `moveToTrash` and, if it succeeds, `removeByPathPrefix`. */
    method TrashAndUnshare(path: string, id: string, now: int, ok: bool, ok2: bool) returns (done: bool)
      modifies this, shares
      ensures (View(), done) == Archive.TrashAndUnshare(old(View()), path, id, now, ok, ok2)
    {
      done := MoveToTrash(path, id, now, ok);
      if done {
        shares.RemoveByPathPrefix(Trim(path, "/"), ok2);
      }
    }

    method HandleDelete(path: string, confirmName: string, id: string, now: int, ok: bool, ok2: bool)
      returns (done: bool)
      modifies this, shares
      ensures (View(), done) == DeleteSpec(old(View()), path, confirmName, id, now, ok, ok2)
    {
      var rel := Trim(path, "/");
      if rel == "" || IsTrashPath(rel) {
        return false;
      }
      var target := Resolve(fs, [], path);
      if target.Err? || target.value !in fs {
        return false;
      }
      if target.value == [] || (fs[target.value].Dir? && confirmName != Last(target.value)) {
        return false;
      }
      done := TrashAndUnshare(rel, id, now, ok, ok2);
    }

    method HandleBulkDelete(given: seq<string>, ids: seq<string>, now: int, oks: seq<Saves>)
      returns (answered: bool, moved: nat, failed: seq<string>)
      requires |oks| == |ids| == |Unique(given)|
      modifies this, shares
      ensures var r := BulkDeleteSpec(old(View()), given, ids, now, oks);
              && answered == r.Some?
              && (r.Some? ==> r.value == Bulk(View(), moved, failed))
              && (r.None? ==> View() == old(View()))
    {
      hide Archive.TrashAndUnshare, UniqueTo, Trim;
      var paths := UniqueNonEmptyPaths(given);
      moved, failed := 0, [];
      if |paths| == 0 || |paths| > MAX_BULK {
        return false, moved, failed;
      }
      for i := 0 to |paths|
        invariant Bulk(View(), moved, failed) == BulkDeleteTo(old(View()), paths, ids, now, oks, i)
      {
        var done := TrashAndUnshare(paths[i], ids[i], now, oks[i].trash, oks[i].shares);
        if done {
          moved := moved + 1;
        } else {
          failed := failed + [Trim(paths[i], "/")];
        }
      }
      return true, moved, failed;
    }

    method FindItem(id: string) returns (i: nat)
      ensures i == ItemAt(items, id)
    {
      i := 0;
      while i < |items| && items[i].id != id
        invariant i <= |items| && forall j :: 0 <= j < i ==> items[j].id != id
      {
        i := i + 1;
      }
      ItemFound(items, id, 0, i);
    }

    method DropItem(i: nat, ok: bool)
      requires i < |items|
      modifies this
      ensures View() == WithItems(old(View()), Dropped(old(items), i), ok)
    {
      items := items[..i] + items[i + 1..];
      SaveLocked(ok);
    }

    method Restore(id: string, ok: bool) returns (done: bool)
      modifies this
      ensures (View(), done) == RestoreSpec(old(View()), id, ok)
    {
      hide Rename, MkdirAll, Resolve, IsTrashPath, ValidShareToken, ItemPath, ItemFrom;
      if !ValidShareToken(id) {
        return false;
      }
      var i := FindItem(id);
      if i == |items| {
        return false;
      }
      var item, src := items[i], ItemPath(id);
      if src !in fs {
        DropItem(i, ok);
        return false;
      }
      var target := Resolve(fs, [], item.path);
      if target.Err? || IsTrashPath(item.path) || target.value == [] {
        return false;
      }
      var dest := target.value;
      var ready := MkdirAll(fs, Parent(dest), next);
      if ready.Err? {
        return false;
      }
      fs, next := ready.value, next + |dest|;
      if dest in fs {
        return false;
      }
      var renamed := Rename(fs, src, dest);
      if renamed.Err? {
        return false;
      }
      fs := renamed.value;
      DropItem(i, ok);
      return ok;
    }

    method Purge(id: string, ok: bool) returns (done: bool)
      modifies this
      ensures (View(), done) == PurgeSpec(old(View()), id, ok)
    {
      if !ValidShareToken(id) {
        return false;
      }
      var i := FindItem(id);
      fs := RemoveAll(fs, ItemPath(id));
      if i == |items| {
        return false;
      }
      DropItem(i, ok);
      return ok;
    }

    method Empty(ok: bool) returns (done: bool)
      modifies this
      ensures (View(), done) == EmptySpec(old(View()), ok)
    {
      ghost var ids := Ids(items);
      for i := 0 to |items|
        invariant View() == old(View()).(fs := RemoveStored(old(fs), ids, i))
      {
        fs := RemoveAll(fs, ItemPath(items[i].id));
      }
      items := [];
      SaveLocked(ok);
      if !ok {
        return false;
      }
      ghost var before := View();
      var orphans := ReadDir(fs, ITEMS);
      for i := 0 to |orphans|
        invariant View() == before.(fs := RemoveStored(before.fs, orphans, i))
      {
        fs := RemoveAll(fs, ItemPath(orphans[i]));
      }
      return true;
    }

    method PurgeExpired(cutoff: int, ok: bool) returns (removed: nat)
      modifies this
      ensures View() == PurgeExpiredSpec(old(View()), cutoff, ok)
      ensures removed == |StaleTo(old(items), cutoff, |old(items)|)|
    {
      var kept: seq<Item> := [];
      removed := 0;
      ghost var stale: seq<string> := [];
      for i := 0 to |items|
        invariant items == old(items)
        invariant kept == KeptTo(items, cutoff, i) && stale == StaleTo(items, cutoff, i) && removed == |stale|
        invariant View() == old(View()).(fs := RemoveStored(old(fs), stale, |stale|))
      {
        if items[i].deletedAt < cutoff {
          ghost var longer := stale + [items[i].id];
          StoredPrefix(old(fs), stale, longer, |stale|);
          fs := RemoveAll(fs, ItemPath(items[i].id));
          stale := longer;
          removed := removed + 1;
          continue;
        }
        kept := kept + [items[i]];
      }
      if removed > 0 {
        items := kept;
        SaveLocked(ok);
      }
    }
  }

  lemma {:induction false} StoredPrefix(fs: Fs, a: seq<string>, b: seq<string>, n: nat)
    requires a <= b && n <= |a|
    ensures RemoveStored(fs, a, n) == RemoveStored(fs, b, n)
  {
    if n > 0 {
      StoredPrefix(fs, a, b, n - 1);
    }
  }
}
