/** trash.go: moving an entry into the trash, back out of it, and purging. */
module ArchiveTrash {
  import opened Archive
  import opened ArchiveEffects
  import opened ArchiveSteps
  import opened FileSystem
  import opened Paths
  import opened Resolver
  import opened Shares
  import opened Tree

  /** A new random id. */
  ghost predicate FreshId(w: World, id: string) {
    ValidShareToken(id) && ItemPath(id) !in w.fs && id !in Ids(w.items) && id !in Ids(w.saved)
  }

  lemma ItemsApart(a: string, b: string)
    ensures a != b ==> Apart(ItemPath(a), ItemPath(b))
    ensures Parent(ItemPath(a)) == ITEMS && Last(ItemPath(a)) == a && ITEMS < ItemPath(a)
  {
    assert ItemPath(a)[2] == a && ItemPath(b)[2] == b;
  }

  lemma TokenIsName(id: string)
    requires ValidShareToken(id)
    ensures ValidName(id)
  {
    assert forall c :: c in id ==> c != '/' && c != '.';
    assert id[0] in id;
  }

  // ---------------------------------------------------------------- into the trash

  lemma TrashMoves(fs: Fs, next: nat, src: Path, id: string)
    requires TreeOk(fs, next) && UserSpot(src) && src in fs && ItemPath(id) !in fs && ValidShareToken(id)
    ensures var fs' := Moved(fs, src, ItemPath(id));
            && FreeMove(fs, src, ItemPath(id)) && Rename(fs, src, ItemPath(id)) == Ok(fs')
            && Rename(fs', ItemPath(id), src) == Ok(fs)
            && TreeOk(fs', next) && Files(fs') == Files(fs)
            && SameSubtree(fs, src, fs', ItemPath(id))
  {
    hide WellFormed, NoLinks, UniqueInos, UserSpot, ItemPath, ValidShareToken;
    var dst := ItemPath(id);
    UserApartFromTrash(src, id);
    ItemsApart(id, id);
    TokenIsName(id);
    MovedTreeOk(fs, next, src, dst);
    MovedKeepsFiles(fs, src, dst);
    MovedArrives(fs, src, dst);
    MovedBack(fs, src, dst);
  }

  /** Moving an entry into the trash, or out of it, leaves the other stored entries alone. */
  lemma OthersStay(fs: Fs, src: Path, dst: Path, id: string, other: string)
    requires other != id
    requires (UserSpot(src) && dst == ItemPath(id)) || (src == ItemPath(id) && UserSpot(dst))
    ensures SameSubtree(fs, ItemPath(other), Moved(fs, src, dst), ItemPath(other))
    ensures ItemPath(other) in Moved(fs, src, dst) <==> ItemPath(other) in fs
  {
    hide UserSpot, ItemPath, Moved;
    ItemsApart(id, other);
    if dst == ItemPath(id) {
      UserApartFromTrash(src, other);
    } else {
      UserApartFromTrash(dst, other);
    }
    MovedElsewhere(fs, src, dst, ItemPath(other));
    assert ItemPath(other) + [] == ItemPath(other);
  }

  function AfterTrash(w: World, src: Path, rel: string, id: string, now: int): World
    requires src in w.fs
  {
    WithItems(w.(fs := Moved(w.fs, src, ItemPath(id))), w.items + [Item(id, rel, Base(rel), w.fs[src].Dir?, now)], true)
  }

  /** `moveToTrash` either does nothing or moves the entry and records it, on disk as well. */
  lemma MoveToTrashOutcome(w: World, path: string, id: string, now: int, ok: bool)
    requires TreeOk(w.fs, w.next) && FreshId(w, id)
    ensures var r := MoveToTrash(w, path, id, now, ok);
            && (!r.1 ==> r.0 == w)
            && (r.1 ==>
                  var rel := Trim(path, "/");
                  var src := CleanRooted(Slashed(rel));
                  ok && UserSpot(src) && src in w.fs && r.0 == AfterTrash(w, src, rel, id, now))
  {
    hide TreeOk, CleanRooted, Resolve, ItemPath, ValidShareToken, Moved;
    var rel := Trim(path, "/");
    if !(rel == "" || IsTrashPath(rel) || Locate(w, rel).Err? || Locate(w, rel).value !in w.fs) {
      LocateUser(w, rel);
      var src := Locate(w, rel).value;
      ItemsReady(w);
      if src != [] {
        TrashMoves(w.fs, w.next, src, id);
      }
    }
  }

  lemma ItemsReady(w: World)
    requires TreeOk(w.fs, w.next)
    ensures MkdirAll(w.fs, ITEMS, w.next) == Ok(w.fs)
  {
  }

  lemma {:induction false} IdsAppend(items: seq<Item>, item: Item, id: string)
    ensures id in Ids(items + [item]) <==> id in Ids(items) || id == item.id
  {
    assert Ids(items + [item]) == Ids(items) + [item.id];
  }

  lemma RecordsAppend(items: seq<Item>, item: Item)
    requires Records(items) && item.id !in Ids(items) && ValidShareToken(item.id)
    ensures Records(items + [item])
  {
    forall i | 0 <= i < |items| ensures items[i].id != item.id {
      assert Ids(items)[i] == items[i].id;
    }
  }

  lemma StoredAppend(fs: Fs, fs': Fs, items: seq<Item>, item: Item)
    requires forall id: string :: ItemPath(id) in fs' <==> ItemPath(id) in fs || id == item.id
    ensures Recorded(fs, items) ==> Recorded(fs', items + [item])
    ensures AllStored(fs, items) ==> AllStored(fs', items + [item])
  {
    hide ItemPath, Ids;
    forall id: string | Recorded(fs, items) && ItemPath(id) in fs' ensures id in Ids(items + [item]) {
      IdsAppend(items, item, id);
    }
  }

  lemma TrashSound(w: World, src: Path, rel: string, id: string, now: int)
    requires Sound(w) && FreshId(w, id) && UserSpot(src) && src in w.fs
    ensures var w' := AfterTrash(w, src, rel, id, now);
            && Sound(w') && Files(w'.fs) == Files(w.fs)
            && (AllStored(w.fs, w.items) ==> AllStored(w'.fs, w'.items))
  {
    hide TreeOk, UserSpot, ItemPath, ValidShareToken, Files, Moved, Records, Recorded, AllStored;
    var w' := AfterTrash(w, src, rel, id, now);
    TrashMoves(w.fs, w.next, src, id);
    var item := Item(id, rel, Base(rel), w.fs[src].Dir?, now);
    TrashedIn(w.fs, src, id);
    forall other: string ensures ItemPath(other) in w'.fs <==> ItemPath(other) in w.fs || other == id {
      if other != id {
        OthersStay(w.fs, src, ItemPath(id), id, other);
      }
    }
    RecordsAppend(w.items, item);
    StoredAppend(w.fs, w'.fs, w.items, item);
  }

  lemma TrashedIn(fs: Fs, src: Path, id: string)
    requires src in fs
    ensures ItemPath(id) in Moved(fs, src, ItemPath(id))
  {
    MovedAt(fs, src, ItemPath(id), ItemPath(id));
    assert src + ItemPath(id)[|ItemPath(id)|..] == src;
  }

  // ---------------------------------------------------------------- out of the trash

  lemma RestoreMoves(fs: Fs, next: nat, id: string, dst: Path)
    requires TreeOk(fs, next) && UserSpot(dst) && dst !in fs && IsDir(fs, Parent(dst)) && ItemPath(id) in fs
    ensures var fs' := Moved(fs, ItemPath(id), dst);
            && FreeMove(fs, ItemPath(id), dst) && Rename(fs, ItemPath(id), dst) == Ok(fs')
            && TreeOk(fs', next) && Files(fs') == Files(fs)
            && SameSubtree(fs, ItemPath(id), fs', dst) && ItemPath(id) !in fs'
  {
    hide WellFormed, NoLinks, UniqueInos, UserSpot, ItemPath, Moved;
    var src := ItemPath(id);
    UserApartFromTrash(dst, id);
    ItemsApart(id, id);
    NameOfSpot(dst);
    MovedTreeOk(fs, next, src, dst);
    MovedKeepsFiles(fs, src, dst);
    MovedArrives(fs, src, dst);
    MovedAt(fs, src, dst, src);
  }

  lemma Folders(w: World, dest: Path)
    requires TreeOk(w.fs, w.next) && UserSpot(dest) && (dest in w.fs || Lstat(w.fs, dest) == Err(NotExist))
    ensures MkdirAll(w.fs, Parent(dest), w.next).Ok?
    ensures var ready := MkdirAll(w.fs, Parent(dest), w.next).value;
            && Grown(w.fs, w.next, ready, w.next + |dest|) && Files(ready) == Files(w.fs) && IsDir(ready, Parent(dest))
            && (dest in ready <==> dest in w.fs)
  {
    hide WellFormed, NoLinks, UniqueInos, UserName, UserPath, ValidPath, MkdirAll, Files, Lstat;
    var up := Parent(dest);
    SpotAbove(dest);
    FoldersGrow(w.fs, w.next, up, w.next + |dest|);
    if dest in w.fs {
      InTree(w.fs, dest);
    } else {
      LstatUp(w.fs, dest);
    }
    MkdirAllFacts(w.fs, up, w.next);
  }

  lemma SpotAbove(p: Path)
    requires UserSpot(p)
    ensures UserPath(Parent(p)) && ValidPath(Parent(p))
  {
  }

  lemma LstatUp(fs: Fs, p: Path)
    requires p != [] && Lstat(fs, p) == Err(NotExist) && WellFormed(fs)
    ensures Lstat(fs, Parent(p)) == Err(NotExist) || IsDir(fs, Parent(p))
  {
    hide WellFormed;
    LstatPresent(fs, Parent(p));
  }

  /** What a restore that finds the stored entry and a free original place does. */
  function AfterRestore(w: World, id: string, dest: Path, ready: Fs, ok: bool): World
    requires ItemAt(w.items, id) < |w.items|
  {
    var moved := w.(fs := Moved(ready, ItemPath(id), dest), next := w.next + |dest|);
    WithItems(moved, Dropped(w.items, ItemAt(w.items, id)), ok)
  }

  datatype Restored = Untouched | Forgotten | Unfolded | Back

  /** `restore` does nothing, forgets a record whose entry is missing, finds the place taken, or puts the
      entry back. */
  ghost predicate Restores(w: World, id: string, ok: bool, r: (World, bool), how: Restored) {
    match how
    case Untouched => r == (w, false)
    case Forgotten =>
      ItemAt(w.items, id) < |w.items| && ItemPath(id) !in w.fs
      && r == (WithItems(w, Dropped(w.items, ItemAt(w.items, id)), ok), false)
    case Unfolded => !r.1 && Grown(w.fs, w.next, r.0.fs, r.0.next) && Files(r.0.fs) == Files(w.fs)
                     && r.0 == w.(fs := r.0.fs, next := r.0.next)
    case Back =>
      ItemAt(w.items, id) < |w.items| && ItemPath(id) in w.fs &&
      var dest := CleanRooted(Slashed(w.items[ItemAt(w.items, id)].path));
      UserSpot(dest) && dest !in w.fs && MkdirAll(w.fs, Parent(dest), w.next).Ok? &&
      var ready := MkdirAll(w.fs, Parent(dest), w.next).value;
      Grown(w.fs, w.next, ready, w.next + |dest|) && Files(ready) == Files(w.fs) && IsDir(ready, Parent(dest))
      && dest !in ready && r == (AfterRestore(w, id, dest, ready, ok), ok)
  }

  lemma RestoreOutcome(w: World, id: string, ok: bool) returns (how: Restored)
    requires TreeOk(w.fs, w.next)
    ensures Restores(w, id, ok, RestoreSpec(w, id, ok), how)
    ensures RestoreSpec(w, id, ok).1 ==> how == Back
  {
    hide TreeOk, CleanRooted, Slashed, Resolve, ItemPath, ValidShareToken, Moved, Grown, Files, MkdirAll, UserSpot,
      SameTrash, Rename, FreeMove, SameSubtree, IsTrashPath, UserPath, Lstat, ItemFrom;
    how := Untouched;
    var i := ItemAt(w.items, id);
    if ValidShareToken(id) && i < |w.items| {
      var path := w.items[i].path;
      var dest := Locate(w, path);
      if ItemPath(id) !in w.fs {
        how := Forgotten;
      } else if dest.Ok? && !IsTrashPath(path) && dest.value != [] {
        LocateUser(w, path);
        SpotOf(dest.value);
        Folders(w, dest.value);
        var ready := MkdirAll(w.fs, Parent(dest.value), w.next).value;
        if dest.value in ready {
          how := Unfolded;
        } else {
          StillStored(w, ready, dest.value, id);
          RestoreMoves(ready, w.next + |dest.value|, id, dest.value);
          how := Back;
        }
      }
    }
  }

  lemma SpotOf(p: Path)
    requires UserPath(p) && p != []
    ensures UserSpot(p)
  {
  }

  lemma StillStored(w: World, ready: Fs, dest: Path, id: string)
    requires Grown(w.fs, w.next, ready, w.next + |dest|)
    ensures TreeOk(ready, w.next + |dest|)
    ensures ItemPath(id) in ready <==> ItemPath(id) in w.fs
  {
    hide TreeOk;
    GrownEffect(w.fs, w.next, ready, w.next + |dest|);
    StoredAlike(w.fs, ready, id);
  }

  // ---------------------------------------------------------------- records and stored entries together

  lemma RecordsDrop(items: seq<Item>, i: nat)
    requires Records(items) && i < |items|
    ensures Records(Dropped(items, i))
  {
  }

  lemma InDropped(items: seq<Item>, i: nat, item: Item)
    requires Records(items) && i < |items|
    ensures item in Dropped(items, i) <==> item in items && item.id != items[i].id
  {
    var d := Dropped(items, i);
    if item in d {
      var k :| 0 <= k < |d| && d[k] == item;
      assert item == if k < i then items[k] else items[k + 1];
    }
    if item in items && item.id != items[i].id {
      var k :| 0 <= k < |items| && items[k] == item;
      assert item == if k < i then d[k] else d[k - 1];
    }
  }

  lemma InIds(items: seq<Item>, id: string)
    ensures id in Ids(items) <==> exists item :: item in items && item.id == id
  {
    if id in Ids(items) {
      var k :| 0 <= k < |items| && Ids(items)[k] == id;
      assert items[k] in items && items[k].id == id;
    }
    if item :| item in items && item.id == id {
      var k :| 0 <= k < |items| && items[k] == item;
      assert Ids(items)[k] == id;
    }
  }

  /** Entries disappear only with their records. */
  lemma StoredWith(fs: Fs, fs': Fs, items: seq<Item>, kept: seq<Item>, gone: set<string>)
    requires forall id: string :: ItemPath(id) in fs' <==> ItemPath(id) in fs && id !in gone
    requires forall item :: item in kept <==> item in items && item.id !in gone
    ensures Recorded(fs, items) ==> Recorded(fs', kept)
    ensures AllStored(fs, items) ==> AllStored(fs', kept)
  {
    hide ItemPath, Ids;
    if Recorded(fs, items) {
      forall id: string | ItemPath(id) in fs' ensures id in Ids(kept) {
        InIds(items, id);
        InIds(kept, id);
        assert id in Ids(items);
        var item :| item in items && item.id == id;
        assert item in kept;
      }
    }
    if AllStored(fs, items) {
      forall i | 0 <= i < |kept| ensures ItemPath(kept[i].id) in fs' {
        assert kept[i] in items;
        var k :| 0 <= k < |items| && items[k] == kept[i];
      }
    }
  }

  lemma StoredLess(fs: Fs, fs': Fs, items: seq<Item>)
    requires forall id: string :: ItemPath(id) in fs' ==> ItemPath(id) in fs
    requires Recorded(fs, items)
    ensures Recorded(fs', items)
  {
  }

  /** Taking one entry and its record away together. */
  lemma DropSound(w: World, w': World, i: nat, ok: bool)
    requires Sound(w) && i < |w.items| && TreeOk(w'.fs, w'.next)
    requires w'.items == Dropped(w.items, i) && w'.saved == if ok then w'.items else w.saved
    requires forall id: string :: ItemPath(id) in w'.fs <==> ItemPath(id) in w.fs && id != w.items[i].id
    ensures Sound(w') && (AllStored(w.fs, w.items) ==> AllStored(w'.fs, w'.items))
  {
    hide TreeOk, ItemPath, Records, Recorded, AllStored;
    RecordsDrop(w.items, i);
    forall item ensures item in w'.items <==> item in w.items && item.id !in {w.items[i].id} {
      InDropped(w.items, i, item);
    }
    StoredWith(w.fs, w'.fs, w.items, w'.items, {w.items[i].id});
    StoredLess(w.fs, w'.fs, w.saved);
  }

  lemma RestoreSound(w: World, id: string, ok: bool)
    requires Sound(w)
    ensures var w' := RestoreSpec(w, id, ok).0;
            && Sound(w') && Files(w'.fs) == Files(w.fs) && w.next <= w'.next
            && (AllStored(w.fs, w.items) ==> AllStored(w'.fs, w'.items))
  {
    hide Sound, RestoreSpec, ItemPath, Files, Recorded, AllStored, Records, Moved, TreeOk, MkdirAll, CleanRooted, Grown,
      IsDir, UserSpot;
    assert TreeOk(w.fs, w.next) by {
      SoundTree(w);
    }
    var how := RestoreOutcome(w, id, ok);
    var w' := RestoreSpec(w, id, ok).0;
    match how {
      case Untouched =>
      case Forgotten =>
        forall other: string ensures ItemPath(other) in w'.fs <==> ItemPath(other) in w.fs && other != id {
        }
        DropSound(w, w', ItemAt(w.items, id), ok);
      case Unfolded =>
        GrownEffect(w.fs, w.next, w'.fs, w'.next);
        GrownTree(w.fs, w.next, w'.fs, w'.next);
        LiveStepSound(w, w');
      case Back =>
        var dest := CleanRooted(Slashed(w.items[ItemAt(w.items, id)].path));
        SpotNonEmpty(dest);
        var ready := MkdirAll(w.fs, Parent(dest), w.next).value;
        StillStored(w, ready, dest, id);
        GrownEffect(w.fs, w.next, ready, w.next + |dest|);
        RestoreMoves(ready, w.next + |dest|, id, dest);
        forall other: string ensures ItemPath(other) in w'.fs <==> ItemPath(other) in w.fs && other != id {
          StoredAlike(w.fs, ready, other);
          if other != id {
            OthersStay(ready, ItemPath(id), dest, id, other);
          }
        }
        DropSound(w, w', ItemAt(w.items, id), ok);
    }
  }

  lemma SpotNonEmpty(p: Path)
    requires UserSpot(p)
    ensures p != []
  {
  }

  lemma SoundTree(w: World)
    requires Sound(w)
    ensures TreeOk(w.fs, w.next)
  {
  }

  lemma GrownTree(fs: Fs, next: nat, fs': Fs, next': nat)
    requires Grown(fs, next, fs', next')
    ensures TreeOk(fs', next') && next <= next'
  {
  }

  // ---------------------------------------------------------------- purging

  lemma PurgedEntry(fs: Fs, next: nat, id: string)
    requires TreeOk(fs, next)
    ensures var fs' := RemoveAll(fs, ItemPath(id));
            && TreeOk(fs', next) && SameLive(fs, fs')
            && (forall other: string :: ItemPath(other) in fs' <==> ItemPath(other) in fs && other != id)
            && (forall other: string :: other != id ==> SameSubtree(fs, ItemPath(other), fs', ItemPath(other)))
  {
    hide WellFormed, NoLinks, UniqueInos, ItemPath;
    var fs' := RemoveAll(fs, ItemPath(id));
    ItemsApart(id, id);
    assert !(ItemPath(id) <= ITEMS);
    RemovedTreeOk(fs, next, ItemPath(id));
    forall other: string
      ensures ItemPath(other) in fs' <==> ItemPath(other) in fs && other != id
      ensures other != id ==> SameSubtree(fs, ItemPath(other), fs', ItemPath(other))
    {
      ItemsApart(id, other);
      if other != id {
        RemovedElsewhere(fs, ItemPath(id), ItemPath(other));
      }
    }
    forall p: Path | p in fs && !(ITEMS < p) ensures p in fs' {
      if ItemPath(id) <= p {
        InsideItems(id, p);
      }
    }
  }

  lemma InsideItems(id: string, p: Path)
    requires ItemPath(id) <= p
    ensures ITEMS < p
  {
  }

  lemma {:induction false} PurgedEntries(fs: Fs, next: nat, ids: seq<string>, n: nat)
    requires TreeOk(fs, next) && n <= |ids|
    ensures var fs' := RemoveStored(fs, ids, n);
            && TreeOk(fs', next) && SameLive(fs, fs')
            && (forall other: string :: ItemPath(other) in fs' <==> ItemPath(other) in fs && other !in ids[..n])
            && (forall other: string :: other !in ids[..n] ==> SameSubtree(fs, ItemPath(other), fs', ItemPath(other)))
  {
    hide TreeOk, ItemPath, SameSubtree, RemoveAll;
    if n == 0 {
      forall other: string ensures SameSubtree(fs, ItemPath(other), fs, ItemPath(other)) {
        SameItself(fs, ItemPath(other));
      }
    } else {
      PurgedEntries(fs, next, ids, n - 1);
      var before, after := RemoveStored(fs, ids, n - 1), RemoveStored(fs, ids, n);
      PurgedEntry(before, next, ids[n - 1]);
      assert ids[..n] == ids[..n - 1] + [ids[n - 1]];
      forall other: string | other !in ids[..n] ensures SameSubtree(fs, ItemPath(other), after, ItemPath(other)) {
        SameSubtreeTransitive(fs, ItemPath(other), before, ItemPath(other), after, ItemPath(other));
      }
    }
  }

  lemma SameItself(fs: Fs, p: Path)
    ensures SameSubtree(fs, p, fs, p)
  {
  }

  /** A request that removes entries from the trash, with their records. */
  ghost predicate PurgeStep(w: World, w': World) {
    Sound(w') && SameLive(w.fs, w'.fs) && w'.made == w.made && w'.shares == w.shares && w'.next == w.next
    && (AllStored(w.fs, w.items) ==> AllStored(w'.fs, w'.items))
  }

  lemma PurgeStepOk(w: World, id: string, ok: bool)
    requires Sound(w)
    ensures PurgeStep(w, PurgeSpec(w, id, ok).0)
  {
    hide TreeOk, ItemPath, RemoveAll, Recorded, AllStored, Records, ValidShareToken, SameSubtree;
    if ValidShareToken(id) {
      PurgedEntry(w.fs, w.next, id);
      var w', i := PurgeSpec(w, id, ok).0, ItemAt(w.items, id);
      if i == |w.items| {
        Unknown(w.items, id, 0);
        assert w'.items == w.items && w'.saved == w.saved;
        UnrecordedGone(w, w', id);
      } else {
        DropSound(w, w', i, ok);
      }
    }
  }

  lemma {:induction false} Unknown(items: seq<Item>, id: string, k: nat)
    requires k <= |items| && ItemFrom(items, id, k) == |items|
    ensures forall i :: k <= i < |items| ==> items[i].id != id
    decreases |items| - k
  {
    if k < |items| {
      Unknown(items, id, k + 1);
    }
  }

  lemma UnrecordedGone(w: World, w': World, id: string)
    requires Sound(w) && w'.items == w.items && w'.saved == w.saved && TreeOk(w'.fs, w'.next)
    requires forall other: string :: ItemPath(other) in w'.fs <==> ItemPath(other) in w.fs && other != id
    requires forall i :: 0 <= i < |w.items| ==> w.items[i].id != id
    ensures Sound(w') && (AllStored(w.fs, w.items) ==> AllStored(w'.fs, w'.items))
  {
    hide TreeOk, ItemPath, Records, Ids;
  }

  lemma EmptyStepOk(w: World, ok: bool)
    requires Sound(w)
    ensures PurgeStep(w, EmptySpec(w, ok).0)
    ensures ok ==> forall id: string :: ItemPath(id) !in EmptySpec(w, ok).0.fs
  {
    hide TreeOk, ItemPath, RemoveStored, Records, SameSubtree, ReadDir;
    var ids := Ids(w.items);
    PurgedEntries(w.fs, w.next, ids, |ids|);
    var fs := RemoveStored(w.fs, ids, |ids|);
    assert ids[..|ids|] == ids;
    forall id: string ensures ItemPath(id) !in fs {
    }
    NoRecords();
    if ok {
      var orphans := ReadDir(fs, ITEMS);
      PurgedEntries(fs, w.next, orphans, |orphans|);
    }
  }

  lemma NoRecords()
    ensures Records([])
  {
  }

  lemma {:induction false} KeptMember(items: seq<Item>, cutoff: int, n: nat, item: Item)
    requires n <= |items|
    ensures item in KeptTo(items, cutoff, n) <==> item in items[..n] && item.deletedAt >= cutoff
  {
    if n > 0 {
      KeptMember(items, cutoff, n - 1, item);
      assert items[..n] == items[..n - 1] + [items[n - 1]];
    }
  }

  lemma {:induction false} StaleMember(items: seq<Item>, cutoff: int, n: nat, id: string)
    requires n <= |items|
    ensures id in StaleTo(items, cutoff, n) <==>
              exists i :: 0 <= i < n && items[i].id == id && items[i].deletedAt < cutoff
  {
    if n > 0 {
      StaleMember(items, cutoff, n - 1, id);
    }
  }

  lemma {:induction false} KeptRecords(items: seq<Item>, cutoff: int, n: nat)
    requires n <= |items| && Records(items)
    ensures Records(KeptTo(items, cutoff, n))
  {
    if n > 0 {
      KeptRecords(items, cutoff, n - 1);
      var before := KeptTo(items, cutoff, n - 1);
      forall i | 0 <= i < |before| ensures before[i].id != items[n - 1].id {
        KeptMember(items, cutoff, n - 1, before[i]);
        var k :| 0 <= k < n - 1 && items[..n - 1][k] == before[i];
      }
    }
  }

  lemma PurgeExpiredStepOk(w: World, cutoff: int, ok: bool)
    requires Sound(w)
    ensures PurgeStep(w, PurgeExpiredSpec(w, cutoff, ok))
  {
    hide TreeOk, ItemPath, RemoveStored, Records, SameSubtree, Recorded, AllStored, KeptTo, StaleTo;
    var n := |w.items|;
    var stale, kept := StaleTo(w.items, cutoff, n), KeptTo(w.items, cutoff, n);
    KeptRecords(w.items, cutoff, n);
    PurgedEntries(w.fs, w.next, stale, |stale|);
    assert stale[..|stale|] == stale && w.items[..n] == w.items;
    var w' := PurgeExpiredSpec(w, cutoff, ok);
    if |stale| > 0 {
      var gone := set id | id in stale;
      forall item ensures item in kept <==> item in w.items && item.id !in gone {
        KeptMember(w.items, cutoff, n, item);
        StaleById(w.items, cutoff, item);
      }
      StoredWith(w.fs, w'.fs, w.items, kept, gone);
      StoredLess(w.fs, w'.fs, w.saved);
    } else {
      NothingStale(w.fs, w.next);
    }
  }

  /** With distinct ids, a record is stale exactly when its id is. */
  lemma StaleById(items: seq<Item>, cutoff: int, item: Item)
    requires Records(items)
    ensures item in items ==> (item.deletedAt < cutoff <==> item.id in StaleTo(items, cutoff, |items|))
  {
    StaleMember(items, cutoff, |items|, item.id);
    if item in items {
      var k :| 0 <= k < |items| && items[k] == item;
    }
  }

  lemma NothingStale(fs: Fs, next: nat)
    requires TreeOk(fs, next)
    ensures RemoveStored(fs, [], 0) == fs
  {
  }
}
