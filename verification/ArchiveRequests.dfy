/** handlers.go, bulk.go, trash.go, upload.go: for every remaining request of the archive exactly when it
    succeeds and what it leaves, said of the tree and the records and not of the way they are computed. */
module ArchiveRequests {
  import opened Archive
  import opened ArchiveEffects
  import opened ArchiveOutcomes
  import opened ArchiveRuns
  import opened ArchiveSteps
  import opened ArchiveTrash
  import Copier
  import opened FileSystem
  import opened Paths
  import opened Resolver
  import opened Shares
  import opened ShareValidity
  import opened Tree

  // ---------------------------------------------------------------- deleting

  /** The request may be trashed: it addresses an entry that is neither the root nor called trash. */
  predicate Trashable(fs: Fs, request: string) {
    var src := PlaceOf(request);
    Trim(request, "/") != "" && !IsTrashPath(Trim(request, "/")) && Addresses(fs, request, src) && src != []
  }

  lemma TrashableTrimmed(fs: Fs, request: string)
    ensures Trashable(fs, Trim(request, "/")) <==> Trashable(fs, request)
    ensures Addresses(fs, Trim(request, "/"), PlaceOf(request)) <==> Addresses(fs, request, PlaceOf(request))
  {
    hide CleanRooted, Slashed, Trim, IsTrashPath, UserPath;
    TrimmedPlace(request);
    TrimTwice(request);
  }

  /** The world after the entry at `src` went into the trash under `id`: the subtree lies there whole, nothing
      else moved, one record tells where it came from, and the shares at or below it are gone. */
  ghost predicate Trashed(w: World, w': World, request: string, id: string, now: int) {
    var src, rel := PlaceOf(request), Trim(request, "/");
    && src in w.fs && src !in w'.fs && SameSubtree(w.fs, src, w'.fs, ItemPath(id))
    && (forall p: Path :: Apart(src, p) && Apart(ItemPath(id), p) ==> SameSubtree(w.fs, p, w'.fs, p))
    && w'.items == w.items + [Item(id, rel, Base(rel), w.fs[src].Dir?, now)] && w'.saved == w'.items
    && w'.made == w.made && w'.next == w.next
    && forall sh :: sh in w'.shares.mem <==> sh in w.shares.mem && !(sh.path == rel || HasPrefix(sh.path, rel + "/"))
  }

  /** Trashing one path, as both delete requests do it. */
  lemma TrashOneExactly(w: World, path: string, id: string, now: int, ok: bool, ok2: bool)
    requires TreeOk(w.fs, w.next) && FreshId(w, id)
    ensures var (w', done) := TrashAndUnshare(w, path, id, now, ok, ok2);
            && (done <==> ok && Trashable(w.fs, path))
            && (if done then Trashed(w, w', path, id, now) else w' == w)
  {
    hide CleanRooted, Slashed, TreeOk, IsTrashPath, Moved, FreshId, MoveToTrash, RemoveByPathPrefixSpec, Trim, Base,
      ItemPath, UserSpot;
    var rel := Trim(path, "/");
    TrashExactly(w, path, id, now, ok);
    MoveToTrashOutcome(w, path, id, now, ok);
    TrashableTrimmed(w.fs, path);
    TrimmedPlace(path);
    var w1 := MoveToTrash(w, path, id, now, ok).0;
    if MoveToTrash(w, path, id, now, ok).1 {
      var src := PlaceOf(path);
      WentToTrash(w, src, id);
      forall sh ensures sh in RemoveByPathPrefixSpec(w1.shares, rel, ok2).mem
                        <==> sh in w.shares.mem && !(sh.path == rel || HasPrefix(sh.path, rel + "/"))
      {
        RemoveExactly(w1.shares, rel, ok2, sh);
        TrimTwice(path);
      }
    }
  }

  lemma WentToTrash(w: World, src: Path, id: string)
    requires TreeOk(w.fs, w.next) && FreshId(w, id) && UserSpot(src) && src in w.fs
    ensures var fs' := Moved(w.fs, src, ItemPath(id));
            && src !in fs' && SameSubtree(w.fs, src, fs', ItemPath(id))
            && forall p: Path :: Apart(src, p) && Apart(ItemPath(id), p) ==> SameSubtree(w.fs, p, fs', p)
  {
    hide TreeOk, Moved, ItemPath, UserSpot, ValidShareToken;
    TrashMoves(w.fs, w.next, src, id);
    UserApartFromTrash(src, id);
    MovedAt(w.fs, src, ItemPath(id), src);
    forall p: Path | Apart(src, p) && Apart(ItemPath(id), p)
      ensures SameSubtree(w.fs, p, Moved(w.fs, src, ItemPath(id)), p)
    {
      MovedElsewhere(w.fs, src, ItemPath(id), p);
    }
  }

  /** A delete succeeds exactly when the entry may be trashed, its name was typed if it is a folder, and the
      record can be saved. Otherwise nothing changes. */
  lemma DeleteExactly(w: World, path: string, confirmName: string, id: string, now: int, ok: bool, ok2: bool)
    requires TreeOk(w.fs, w.next) && FreshId(w, id)
    ensures var (w', done) := DeleteSpec(w, path, confirmName, id, now, ok, ok2);
            var src := PlaceOf(path);
            && (done <==> ok && Trashable(w.fs, path) && (w.fs[src].Dir? ==> confirmName == Last(src)))
            && (if done then Trashed(w, w', path, id, now) else w' == w)
  {
    hide CleanRooted, Slashed, TreeOk, IsTrashPath, FreshId, TrashAndUnshare, Trim, Base, ItemPath, Resolve, UserPath,
      SameSubtree;
    var rel := Trim(path, "/");
    LocateExactly(w, path);
    TrashableTrimmed(w.fs, path);
    TrimmedPlace(path);
    TrimTwice(path);
    TrashOneExactly(w, rel, id, now, ok, ok2);
  }

  // ---------------------------------------------------------------- the bulk requests

  /** Can the path be moved into `dest` as the tree is now? */
  predicate Movable(fs: Fs, request: string, dest: Path) {
    Trashable(fs, request) && !(PlaceOf(request) <= dest) && dest + [Last(PlaceOf(request))] !in fs
  }

  lemma MoveOneExactly(w: World, path: string, dest: Path, destDir: string, ok: bool)
    requires TreeOk(w.fs, w.next) && UserPath(dest) && IsDir(w.fs, dest)
    ensures MoveOne(w, path, dest, destDir, ok).1 <==> Movable(w.fs, path, dest)
  {
    hide CleanRooted, Slashed, Resolve, TreeOk, IsTrashPath, RewritePathPrefixSpec, Rel, Moved, Trim;
    var rel := Trim(path, "/");
    TrimmedPlace(path);
    LocateExactly(w, rel);
    TrashableTrimmed(w.fs, path);
    var src := PlaceOf(path);
    if Addresses(w.fs, rel, src) {
      TargetExactly(w.fs, w.next, src, dest);
      if MoveTarget(w.fs, src, dest).Some? {
        MoveTargetOk(w.fs, w.next, src, dest);
        RelocateStep(w, src, dest + [Last(src)], rel, PathJoinSpec([Trim(destDir, "/"), Last(src)]), ok);
      }
    }
  }

  /** A bulk move is carried out exactly for one to five hundred paths and an existing directory. */
  lemma BulkMoveStarts(w: World, given: seq<string>, destDir: string, oks: seq<bool>)
    requires TreeOk(w.fs, w.next) && |oks| == |Unique(given)|
    ensures BulkMoveSpec(w, given, destDir, oks).Some? <==>
              && 1 <= |Unique(given)| <= 500 && !IsTrashPath(destDir)
              && Addresses(w.fs, destDir, PlaceOf(destDir)) && IsDir(w.fs, PlaceOf(destDir))
  {
    hide CleanRooted, Slashed, Resolve, TreeOk, IsTrashPath, BulkMoveTo, UniqueTo;
    LocateExactly(w, destDir);
  }

  /** In its turn each path is counted as moved exactly when it can be moved by then, and is otherwise listed
      among the failures and changes nothing. */
  lemma BulkMoveTurn(w: World, paths: seq<string>, dest: Path, destDir: string, oks: seq<bool>, n: nat)
    requires TreeOk(w.fs, w.next) && UserPath(dest) && IsDir(w.fs, dest) && n < |paths| == |oks|
    ensures var p, q := BulkMoveTo(w, paths, dest, destDir, oks, n), BulkMoveTo(w, paths, dest, destDir, oks, n + 1);
            var src := PlaceOf(paths[n]);
            if Movable(p.w.fs, paths[n], dest)
            then q.moved == p.moved + 1 && q.failed == p.failed
                 && src !in q.w.fs && SameSubtree(p.w.fs, src, q.w.fs, dest + [Last(src)])
            else q == p.(failed := p.failed + [Trim(paths[n], "/")])
  {
    hide TreeOk, MoveOne, CleanRooted, Slashed, Trim, IsTrashPath, Files, LiveStep, Moved, RewritePathPrefixSpec;
    BulkMoveStep(w, paths, dest, destDir, oks, n);
    var p := BulkMoveTo(w, paths, dest, destDir, oks, n);
    LiveTree(w, p.w);
    MoveOneExactly(p.w, paths[n], dest, destDir, oks[n]);
    MoveOneOutcome(p.w, paths[n], dest, destDir, oks[n]);
    TrimmedPlace(paths[n]);
    if MoveOne(p.w, paths[n], dest, destDir, oks[n]).1 {
      MovedWhole(p.w, PlaceOf(paths[n]), dest);
    }
  }

  lemma MovedWhole(w: World, src: Path, dest: Path)
    requires src != [] && UserMove(w.fs, w.next, src, dest + [Last(src)])
    ensures var fs' := Moved(w.fs, src, dest + [Last(src)]);
            src !in fs' && SameSubtree(w.fs, src, fs', dest + [Last(src)])
  {
    hide WellFormed, NoLinks, UniqueInos, Moved;
    var dst := dest + [Last(src)];
    MovedArrives(w.fs, src, dst);
    MovedAt(w.fs, src, dst, src);
    if dst <= src {
      NothingBelow(w.fs, dst, src);
    }
  }

  /** In its turn each path of a bulk delete is trashed exactly when it can be by then and its record saved;
      folders need no confirmation here. */
  lemma BulkDeleteTurn(w: World, paths: seq<string>, ids: seq<string>, now: int, oks: seq<Saves>, n: nat)
    requires Sound(w) && n < |paths| == |ids| == |oks| && FreshIds(w, ids, 0)
    ensures var p, q := BulkDeleteTo(w, paths, ids, now, oks, n), BulkDeleteTo(w, paths, ids, now, oks, n + 1);
            if oks[n].trash && Trashable(p.w.fs, paths[n])
            then q.moved == p.moved + 1 && q.failed == p.failed && Trashed(p.w, q.w, paths[n], ids[n], now)
            else q == p.(failed := p.failed + [Trim(paths[n], "/")])
  {
    hide Sound, FreshId, SafeStep, Keeps, TrashAndUnshare, Trashable, Trashed, Trim;
    BulkDeleteStep(w, paths, ids, now, oks, n, Item("", "", "", false, 0));
    var p := BulkDeleteTo(w, paths, ids, now, oks, n);
    SafeSound(w, p.w);
    assert FreshId(p.w, ids[n]);
    TrashOneExactly(p.w, paths[n], ids[n], now, oks[n].trash, oks[n].shares);
  }

  lemma BulkDeleteStarts(w: World, given: seq<string>, ids: seq<string>, now: int, oks: seq<Saves>)
    requires |oks| == |ids| == |Unique(given)|
    ensures BulkDeleteSpec(w, given, ids, now, oks).Some? <==> 1 <= |Unique(given)| <= 500
  {
  }

  // ---------------------------------------------------------------- purging

  /** `fs'` is `fs` without the entries at and below the stored ones of these ids. */
  ghost predicate Without(fs: Fs, ids: set<string>, fs': Fs) {
    && (forall q :: q in fs' <==> q in fs && !(exists id :: id in ids && ItemPath(id) <= q))
    && (forall q :: q in fs' ==> fs'[q] == fs[q])
  }

  lemma {:induction false} RemovedWithout(fs: Fs, ids: seq<string>, n: nat)
    requires n <= |ids|
    ensures Without(fs, (set id | id in ids[..n]), RemoveStored(fs, ids, n))
  {
    hide ItemPath;
    if n > 0 {
      RemovedWithout(fs, ids, n - 1);
      RemovedAt(RemoveStored(fs, ids, n - 1), ItemPath(ids[n - 1]));
      assert ids[..n] == ids[..n - 1] + [ids[n - 1]];
      assert forall id :: id in ids[..n] <==> id in ids[..n - 1] || id == ids[n - 1];
    }
  }

  function IdSet(items: seq<Item>): set<string> {
    set item | item in items :: item.id
  }

  function StaleIds(items: seq<Item>, cutoff: int): set<string> {
    set item | item in items && item.deletedAt < cutoff :: item.id
  }

  /** A purge of a well-formed id removes the stored entry with everything below it and its record, and no
      other; it reports success exactly when there was a record and the records can be saved. */
  lemma PurgeExactly(w: World, id: string, ok: bool)
    requires Sound(w)
    ensures var (w', done) := PurgeSpec(w, id, ok);
            if !ValidShareToken(id) then w' == w && !done
            else
              && Without(w.fs, {id}, w'.fs) && w' == w.(fs := w'.fs, items := w'.items, saved := w'.saved)
              && (forall item :: item in w'.items <==> item in w.items && item.id != id)
              && w'.saved == (if done then w'.items else w.saved)
              && (done <==> ok && exists item :: item in w.items && item.id == id)
  {
    hide TreeOk, ItemPath, Recorded, ValidShareToken, RemoveAll;
    if ValidShareToken(id) {
      var i := ItemAt(w.items, id);
      RemovedAt(w.fs, ItemPath(id));
      if i == |w.items| {
        ArchiveTrash.Unknown(w.items, id, 0);
      } else {
        forall item ensures item in Dropped(w.items, i) <==> item in w.items && item.id != id {
          InDropped(w.items, i, item);
        }
        assert w.items[i] in w.items;
      }
    }
  }

  /** Emptying removes every record and every stored entry that has one; if the records can be saved, nothing
      at all is left below the items directory. */
  lemma EmptyExactly(w: World, ok: bool)
    requires Sound(w)
    ensures var (w', done) := EmptySpec(w, ok);
            && done == ok && w'.items == [] && w'.saved == (if ok then [] else w.saved)
            && w' == w.(fs := w'.fs, items := w'.items, saved := w'.saved)
            && (ok ==> forall q :: q in w'.fs <==> q in w.fs && !(ITEMS < q))
            && (!ok ==> Without(w.fs, IdSet(w.items), w'.fs))
            && (forall q :: q in w'.fs ==> q in w.fs && w'.fs[q] == w.fs[q])
  {
    hide TreeOk, ItemPath, RemoveStored, Records, Recorded, SameSubtree, ReadDir, SameLive;
    var ids := Ids(w.items);
    assert ids[..|ids|] == ids;
    RemovedWithout(w.fs, ids, |ids|);
    IdsOf(w.items);
    var fs := RemoveStored(w.fs, ids, |ids|);
    if ok {
      var orphans := ReadDir(fs, ITEMS);
      assert orphans[..|orphans|] == orphans;
      RemovedWithout(fs, orphans, |orphans|);
      PurgedEntries(w.fs, w.next, ids, |ids|);
      forall q ensures q in EmptySpec(w, ok).0.fs <==> q in w.fs && !(ITEMS < q) {
        NothingStored(w, fs, q);
      }
    }
  }

  lemma IdsOf(items: seq<Item>)
    ensures (set id | id in Ids(items)) == IdSet(items)
  {
    forall id ensures id in Ids(items) <==> id in IdSet(items) {
      InIds(items, id);
    }
  }

  /** Whatever lies below the items directory lies at or below one of the entries listed there. */
  lemma NothingStored(w: World, fs: Fs, q: Path)
    requires TreeOk(w.fs, w.next) && TreeOk(fs, w.next)
    requires Without(w.fs, IdSet(w.items), fs)
    ensures var orphans := ReadDir(fs, ITEMS);
            var fs' := RemoveStored(fs, orphans, |orphans|);
            Without(fs, (set id | id in orphans), fs') ==> (q in fs' <==> q in w.fs && !(ITEMS < q))
  {
    hide NoLinks, UniqueInos, RemoveStored;
    var orphans := ReadDir(fs, ITEMS);
    ReadDirFacts(fs, ITEMS);
    if ITEMS < q {
      var id := q[|ITEMS|];
      assert ItemPath(id) <= q;
      if q in fs {
        assert q[..|ITEMS| + 1] == ItemPath(id);
        Ancestors(fs, q, |ITEMS| + 1);
        assert id in orphans;
      }
    } else {
      forall id: string ensures !(ItemPath(id) <= q) {
        assert ItemPath(id) <= q ==> ITEMS < q;
      }
    }
  }

  /** The janitor removes the records older than the cutoff with their stored entries, and keeps all others
      in their order. */
  lemma PurgeExpiredExactly(w: World, cutoff: int, ok: bool)
    requires Sound(w)
    ensures var w' := PurgeExpiredSpec(w, cutoff, ok);
            && Without(w.fs, StaleIds(w.items, cutoff), w'.fs)
            && w' == w.(fs := w'.fs, items := w'.items, saved := w'.saved)
            && (forall item :: item in w'.items <==> item in w.items && item.deletedAt >= cutoff)
            && (forall i, j :: 0 <= i < j < |w'.items| ==> Before(w.items, w'.items[i], w'.items[j]))
            && w'.saved == (if ok && w'.items != w.items then w'.items else w.saved)
  {
    hide TreeOk, ItemPath, RemoveStored, Records, Recorded, KeptTo, StaleTo, Before;
    var n := |w.items|;
    var stale, kept := StaleTo(w.items, cutoff, n), KeptTo(w.items, cutoff, n);
    assert stale[..|stale|] == stale && w.items[..n] == w.items;
    RemovedWithout(w.fs, stale, |stale|);
    forall id ensures id in stale <==> id in StaleIds(w.items, cutoff) {
      StaleMember(w.items, cutoff, n, id);
    }
    assert (set id | id in stale) == StaleIds(w.items, cutoff);
    forall item ensures item in kept <==> item in w.items && item.deletedAt >= cutoff {
      KeptMember(w.items, cutoff, n, item);
    }
    KeptAll(w.items, cutoff, n);
    forall i, j | 0 <= i < j < |kept| ensures Before(w.items, kept[i], kept[j]) {
      KeptInOrder(w.items, cutoff, n, i, j);
    }
  }

  /** `a` stands before `b`. */
  ghost predicate Before(items: seq<Item>, a: Item, b: Item) {
    exists i, j :: 0 <= i < j < |items| && items[i] == a && items[j] == b
  }

  lemma {:induction false} KeptAll(items: seq<Item>, cutoff: int, n: nat)
    requires n <= |items|
    ensures |KeptTo(items, cutoff, n)| + |StaleTo(items, cutoff, n)| == n
    ensures StaleTo(items, cutoff, n) == [] ==> KeptTo(items, cutoff, n) == items[..n]
  {
    if n > 0 {
      KeptAll(items, cutoff, n - 1);
      assert items[..n] == items[..n - 1] + [items[n - 1]];
    }
  }

  lemma {:induction false} KeptInOrder(items: seq<Item>, cutoff: int, n: nat, i: nat, j: nat)
    requires n <= |items| && i < j < |KeptTo(items, cutoff, n)|
    ensures var kept := KeptTo(items, cutoff, n); Before(items, kept[i], kept[j])
  {
    var before := KeptTo(items, cutoff, n - 1);
    if j < |before| {
      KeptInOrder(items, cutoff, n - 1, i, j);
    } else {
      KeptMember(items, cutoff, n - 1, before[i]);
      var k :| 0 <= k < n - 1 && items[..n - 1][k] == before[i];
      assert items[k] == before[i];
    }
  }

  // ---------------------------------------------------------------- adding entries

  /** One new entry, and nothing else. */
  predicate Added(w: World, r: (World, bool), p: Path, node: Node) {
    r == (w.(fs := w.fs[p := node], next := w.next + 1), true)
  }

  /** The request addresses a directory. */
  predicate AddressesDir(fs: Fs, request: string) {
    Addresses(fs, request, PlaceOf(request)) && IsDir(fs, PlaceOf(request))
  }

  /** A folder is made exactly in an existing directory under a usable free name. */
  lemma MkdirExactly(w: World, path: string, name: string)
    requires TreeOk(w.fs, w.next)
    ensures var r, n := MkdirSpec(w, path, name), SanitizeName(name);
            var p := PlaceOf(path) + [n];
            if !IsTrashPath(path) && !IsTrashPath(PathJoinSpec([path, name])) && AddressesDir(w.fs, path)
               && n != "" && '\0' !in n && p !in w.fs
            then Added(w, r, p, Dir(w.next)) else r == (w, false)
  {
    hide CleanRooted, Slashed, Resolve, TreeOk, IsTrashPath, SanitizeName, PathJoinSpec;
    LocateExactly(w, path);
    var p := PlaceOf(path) + [SanitizeName(name)];
    assert Parent(p) == PlaceOf(path);
  }

  /** A plain upload creates exactly a new file in an existing directory, never replacing one. */
  lemma DirectUploadExactly(w: World, path: string, filename: string, data: Bytes)
    requires TreeOk(w.fs, w.next)
    ensures var r, n := DirectUploadSpec(w, path, filename, data), SanitizeName(filename);
            var p := PlaceOf(path) + [n];
            if !IsTrashPath(path) && AddressesDir(w.fs, path) && n != "" && '\0' !in n && p !in w.fs
            then Added(w, r, p, File(w.next, data)) else r == (w, false)
  {
    hide CleanRooted, Slashed, Resolve, TreeOk, IsTrashPath, SanitizeName;
    LocateExactly(w, path);
    var p := PlaceOf(path) + [SanitizeName(filename)];
    assert Parent(p) == PlaceOf(path);
  }

  /** Putting an upload in place creates the file exactly where the directory is there, the name can be
      resolved below it, and neither that name nor its temporary one is taken. */
  lemma UploadExactly(w: World, path: string, name: string, data: Bytes)
    requires TreeOk(w.fs, w.next)
    ensures var r, p := UploadSpec(w, path, name, data), PlaceOf(PathJoinSpec([path, name]));
            if AddressesDir(w.fs, path) && '\0' !in PathJoinSpec([path, name]) && UserSpot(p) && p !in w.fs
               && IsDir(w.fs, Parent(p)) && Parent(p) + [Last(p) + ".uploading"] !in w.fs
            then Added(w, r, p, File(w.next, data)) else r == (w, false)
  {
    hide CleanRooted, Slashed, Resolve, TreeOk, PathJoinSpec, UserPath, Lstat;
    LocateExactly(w, path);
    PlaceExactly(w, PathJoinSpec([path, name]));
    var p := PlaceOf(PathJoinSpec([path, name]));
    if p != [] && UserPath(p) && p !in w.fs && IsDir(w.fs, Parent(p)) {
      FreeHere(w.fs, w.next, p);
    }
  }

  lemma FreeHere(fs: Fs, next: nat, p: Path)
    requires TreeOk(fs, next) && UserSpot(p) && p !in fs && IsDir(fs, Parent(p))
    ensures Lstat(fs, p) == Err(NotExist)
  {
    hide WellFormed, UniqueInos, UserName;
    LstatPresent(fs, Parent(p));
  }

  /** A drop lands in the shared directory under the first free name, or a clock-made one. */
  lemma DropUploadExactly(w: World, sharePath: string, filename: string, nanos: nat, data: Bytes)
    requires TreeOk(w.fs, w.next)
    ensures var r, n := DropUploadSpec(w, sharePath, filename, nanos, data), SanitizeName(filename);
            var dir := PlaceOf(sharePath);
            var p := dir + [Copier.UniqueName(w.fs, dir, n, 0, nanos)];
            if AddressesDir(w.fs, sharePath) && n != "" && '\0' !in n && p !in w.fs
            then Added(w, r, p, File(w.next, data)) else r == (w, false)
  {
    hide CleanRooted, Slashed, Resolve, TreeOk, SanitizeName, Copier.UniqueName;
    LocateExactly(w, sharePath);
    var p := PlaceOf(sharePath) + [Copier.UniqueName(w.fs, PlaceOf(sharePath), SanitizeName(filename), 0, nanos)];
    assert Parent(p) == PlaceOf(sharePath);
  }

  /** The folders of a folder upload: they are made exactly when nothing but directories stands on the way, and
      then exactly the missing ones are new. */
  lemma UploadFoldersExactly(w: World, destRel: string)
    requires TreeOk(w.fs, w.next)
    ensures var (w', done) := UploadFoldersSpec(w, destRel);
            var dir := PlaceOf(destRel);
            && (done <==>
                  && !IsTrashPath(destRel) && '\0' !in destRel && UserPath(dir)
                  && (Lstat(w.fs, dir) == Err(NotExist) || IsDir(w.fs, dir)))
            && (!done ==> w' == w)
            && (done ==> Extends(w.fs, w'.fs) && w' == w.(fs := w'.fs, next := w'.next)
                         && forall q :: q in w'.fs && q !in w.fs <==> q <= dir && q !in w.fs)
            && (done ==> forall q :: q in w'.fs && q !in w.fs ==> w'.fs[q].Dir?)
  {
    hide CleanRooted, Slashed, Resolve, WellFormed, NoLinks, UniqueInos, IsTrashPath, MkdirAll, Lstat;
    PlaceExactly(w, destRel);
    var dir := PlaceOf(destRel);
    if UserPath(dir) {
      assert ValidPath(dir);
      LstatPresent(w.fs, dir);
      MkdirAllFacts(w.fs, dir, w.next);
      var made := MkdirAll(w.fs, dir, w.next);
      if made.Ok? {
        forall q | q <= dir ensures q in made.value {
          assert q == dir[..|q|];
          Ancestors(made.value, dir, |q|);
        }
      }
    }
  }

  // ---------------------------------------------------------------- sharing an entry

  /** A share is recorded exactly when the entry is there and the options are ones a share can have; it stands
      for the node at that place. */
  lemma CreateShareExactly(w: World, token: string, relPath: string, kind: string, mode: Mode, now: int, ok: bool)
    requires TreeOk(w.fs, w.next)
    ensures var (w', done) := CreateShareSpec(w, token, relPath, kind, mode, now, ok);
            var p := PlaceOf(relPath);
            var valid := Trim(relPath, "/") != "" && Addresses(w.fs, relPath, p) && !mode.Unknown?
                         && (kind == "" || kind == "link"
                             || (kind == "drop" && w.fs[p].Dir? && Lifetime(mode).Some?));
            && (done <==> ok && valid)
            && (!valid ==> w' == w)
            && (valid ==> w'.made == w.made[token := w.fs[p].ino] && w' == w.(shares := w'.shares, made := w'.made)
                          && |w'.shares.mem| > 0
                          && var sh := w'.shares.mem[|w'.shares.mem| - 1];
                             sh.token == token && sh.path == Trim(relPath, "/") && sh.isDir == w.fs[p].Dir?)
  {
    hide CleanRooted, Slashed, Resolve, TreeOk, Trim, Prune, Base;
    TrimmedPlace(relPath);
    TrimTwice(relPath);
    LocateExactly(w, Trim(relPath, "/"));
    var p := PlaceOf(relPath);
    if p in w.fs {
      CreatedExactly(token, relPath, w.fs[p].Dir?, kind, mode, now);
    }
  }
}
