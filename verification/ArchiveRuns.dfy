/** Whole runs of requests: shares follow their nodes, no content is lost outside a purge, and what is
    restored is what was trashed. */
module ArchiveRuns {
  import opened Archive
  import opened ArchiveEffects
  import opened ArchiveSteps
  import opened ArchiveTrash
  import opened Copier
  import opened Copying
  import opened FileSystem
  import opened Paths
  import opened Resolver
  import opened Shares
  import opened Tree
  import UploadPlan

  datatype Event =
    | Move(path: string, destDir: string, ok: bool)
    | Rename(oldPath: string, newName: string, ok: bool)
    | BulkMove(paths: seq<string>, destDir: string, oks: seq<bool>)
    | Delete(path: string, confirmName: string, id: string, now: int, ok: bool, ok2: bool)
    | BulkDelete(paths: seq<string>, ids: seq<string>, now: int, saves: seq<Saves>)
    | Restore(id: string, ok: bool)
    | Purge(id: string, ok: bool)
    | Empty(ok: bool)
    | PurgeExpired(cutoff: int, ok: bool)
    | Mkdir(path: string, name: string)
    | UploadFolders(path: string)
    | Upload(path: string, name: string, data: Bytes)
    | DirectUpload(path: string, filename: string, data: Bytes)
    | DropUpload(path: string, filename: string, nanos: nat, data: Bytes)
    | Copy(path: string, destDir: string, nanos: nat)
    | Duplicate(path: string, nanos: nat)
    | CreateShare(token: string, path: string, kind: string, mode: Mode, now: int, ok: bool)
    | ShareOp(op: Op)
    | Restart

  ghost predicate FreshIds(w: World, ids: seq<string>, n: nat) {
    && (forall i :: n <= i < |ids| ==> FreshId(w, ids[i]))
    && (forall i, j :: n <= i < j < |ids| ==> ids[i] != ids[j])
  }

  /** Random tokens are new, one save outcome is given for every path, and the root is not renamed. */
  ghost predicate Possible(w: World, e: Event) {
    match e
    case Rename(oldPath, _, _) => !NamesRoot(oldPath)
    case BulkMove(paths, _, oks) => |oks| == |Unique(paths)|
    case Delete(_, _, id, _, _, _) => FreshId(w, id)
    case BulkDelete(paths, ids, _, oks) => |oks| == |ids| == |Unique(paths)| && FreshIds(w, ids, 0)
    case CreateShare(token, _, _, _, _, _) => token !in w.made
    case ShareOp(op) => KeepsPaths(op)
    case _ => true
  }

  function BulkResult(w: World, p: Option<Bulk>): World {
    if p.Some? then p.value.w else w
  }

  /** A restart reads the trash records and the share table back from disk. */
  function Restarted(w: World): World {
    w.(items := w.saved, shares := Shares.Step(w.shares, Op.Restart).0)
  }

  ghost function Next(w: World, e: Event): World
    requires TreeOk(w.fs, w.next) && Possible(w, e)
  {
    match e
    case Move(path, destDir, ok) => MoveSpec(w, path, destDir, ok).0
    case Rename(oldPath, newName, ok) => RenameSpec(w, oldPath, newName, ok).0
    case BulkMove(paths, destDir, oks) => BulkResult(w, BulkMoveSpec(w, paths, destDir, oks))
    case Delete(path, confirmName, id, now, ok, ok2) => DeleteSpec(w, path, confirmName, id, now, ok, ok2).0
    case BulkDelete(paths, ids, now, oks) => BulkResult(w, BulkDeleteSpec(w, paths, ids, now, oks))
    case Restore(id, ok) => RestoreSpec(w, id, ok).0
    case Purge(id, ok) => PurgeSpec(w, id, ok).0
    case Empty(ok) => EmptySpec(w, ok).0
    case PurgeExpired(cutoff, ok) => PurgeExpiredSpec(w, cutoff, ok)
    case Mkdir(path, name) => MkdirSpec(w, path, name).0
    case UploadFolders(path) => UploadFoldersSpec(w, path).0
    case Upload(path, name, data) => UploadSpec(w, path, name, data).0
    case DirectUpload(path, filename, data) => DirectUploadSpec(w, path, filename, data).0
    case DropUpload(path, filename, nanos, data) => DropUploadSpec(w, path, filename, nanos, data).0
    case Copy(path, destDir, nanos) => CopySpec(w, path, destDir, nanos).0
    case Duplicate(path, nanos) => DuplicateSpec(w, path, nanos).0
    case CreateShare(token, path, kind, mode, now, ok) => CreateShareSpec(w, token, path, kind, mode, now, ok).0
    case ShareOp(op) => w.(shares := Shares.Step(w.shares, op).0)
    case Restart => Restarted(w)
  }

  /** Requests that move entries around, and those that add some. The others purge. */
  predicate Conserving(e: Event) {
    e.Move? || e.Rename? || e.BulkMove? || e.Delete? || e.BulkDelete? || e.Restore?
    || e.CreateShare? || e.ShareOp? || e.Restart?
  }

  predicate Adding(e: Event) {
    e.Mkdir? || e.UploadFolders? || e.Upload? || e.DirectUpload? || e.DropUpload? || e.Copy? || e.Duplicate?
  }

  /** What a copy request copies where. */
  function ChoiceOf(w: World, e: Event): Choice {
    match e
    case Copy(path, destDir, nanos) => CopyChoice(w.fs, [], path, destDir, nanos)
    case Duplicate(path, nanos) => DuplicateChoice(w.fs, [], path, nanos)
    case _ => Refused(BadPath)
  }

  /** A copy under a name that is taken: it fails, and the removal that follows takes the entry away. */
  predicate Displaces(w: World, e: Event) {
    var c := ChoiceOf(w, e);
    c.Chosen? && c.dir + [c.name] in w.fs
  }

  lemma OnlyCopiesDisplace(w: World, e: Event)
    ensures Displaces(w, e) ==> e.Copy? || e.Duplicate?
  {
  }

  function DisplacedAt(w: World, e: Event): Path
    requires Displaces(w, e)
  {
    var c := ChoiceOf(w, e);
    c.dir + [c.name]
  }

  predicate Purging(e: Event) {
    e.Purge? || e.Empty? || e.PurgeExpired?
  }

  // ---------------------------------------------------------------- requests that add

  ghost predicate GrowStep(w: World, w': World) {
    w' == w.(fs := w'.fs, next := w'.next) && Grown(w.fs, w.next, w'.fs, w'.next)
  }

  lemma Unchanged(w: World)
    requires TreeOk(w.fs, w.next)
    ensures GrowStep(w, w)
  {
    NothingGrown(w.fs, w.next, w.next);
  }

  lemma CreateStep(w: World, dir: Path, n: Name, node: Node)
    requires TreeOk(w.fs, w.next) && UserPath(dir) && UserName(n) && node.ino == w.next && !node.Link?
    ensures GrowStep(w, Create(w, dir + [n], node).0)
  {
    hide TreeOk, Grown;
    SpotIn(dir, n);
    CreateGrows(w, dir + [n], node);
  }

  lemma MkdirStep(w: World, path: string, name: string)
    requires TreeOk(w.fs, w.next)
    ensures GrowStep(w, MkdirSpec(w, path, name).0)
  {
    hide TreeOk, Grown, GrowStep, Resolve, SanitizeName, UserPath, UserName, IsTrashPath, PathJoinSpec, Create;
    Unchanged(w);
    var dir, n := Locate(w, path), SanitizeName(name);
    if !(IsTrashPath(path) || IsTrashPath(PathJoinSpec([path, name])) || dir.Err? || n == "" || '\0' in n) {
      LocateUser(w, path);
      SanitizedName(name);
      CreateStep(w, dir.value, n, Dir(w.next));
    }
  }

  lemma UploadFoldersStep(w: World, path: string)
    requires TreeOk(w.fs, w.next)
    ensures GrowStep(w, UploadFoldersSpec(w, path).0)
  {
    hide TreeOk, Grown, Resolve, UserPath, IsTrashPath, MkdirAll, Lstat;
    Unchanged(w);
    if Locate(w, path).Ok? {
      LocateUser(w, path);
      FoldersGrow(w.fs, w.next, Locate(w, path).value, w.next + |Locate(w, path).value| + 1);
    }
  }

  lemma UploadStep(w: World, path: string, name: string, data: Bytes)
    requires TreeOk(w.fs, w.next)
    ensures GrowStep(w, UploadSpec(w, path, name, data).0)
  {
    hide TreeOk, Grown, Resolve, UserPath, PathJoinSpec;
    Unchanged(w);
    var rel := PathJoinSpec([path, name]);
    if Locate(w, rel).Ok? {
      LocateUser(w, rel);
      CreateGrows(w, Locate(w, rel).value, File(w.next, data));
    }
  }

  /** Plain characters inserted into a name, but not in front, leave it a name for requests. */
  lemma InsertedName(a: string, m: string, e: string)
    requires UserName(a + e) && a != "" && forall x :: x in m ==> x != '/' && x != '\\' && x != '\0' && x != '.'
    ensures UserName(a + m + e)
  {
    var n, c := a + e, a + m + e;
    assert n[0] == a[0] && c[0] == a[0];
    forall x | x in c ensures x in n || x in m {
    }
  }

  lemma CandidateUserName(n: Name, k: nat)
    requires UserName(n)
    ensures UserName(CopyNameCandidate(n, k))
  {
    hide UploadPlan.Decimal, CopyNameCandidate, Marker;
    CandidateShape(n, k);
    MarkerPlain(k);
    StemStarts(n);
    InsertedName(Stem(n), Marker(k), Ext(n));
  }

  lemma StemStarts(n: Name)
    requires UserName(n)
    ensures Stem(n) != "" && Stem(n) + Ext(n) == n
  {
    ExtStarts(n);
    hide Ext;
  }

  lemma {:induction false} ExtStarts(s: string)
    ensures Ext(s) == "" || Ext(s)[0] == '.'
  {
    if s != "" && s[|s| - 1] != '/' && s[|s| - 1] != '.' {
      ExtStarts(s[..|s| - 1]);
    }
  }

  lemma MarkerPlain(k: nat)
    ensures forall x :: x in Marker(k) ==> x != '/' && x != '\\' && x != '\0' && x != '.'
  {
    UploadPlan.ValueOfDecimal(k);
    if k > 1 {
      assert Marker(k) == " copy " + UploadPlan.Decimal(k);
      assert forall x :: x in " copy " ==> x in [' ', 'c', 'o', 'p', 'y'];
    }
  }

  lemma FallbackUserName(n: Name, nanos: nat)
    requires UserName(n)
    ensures UserName(FallbackName(n, nanos))
  {
    hide UploadPlan.Decimal;
    UploadPlan.ValueOfDecimal(nanos);
    var c := FallbackName(n, nanos);
    assert c[0] == n[0] && |c| > 6;
    assert forall x :: x in " copy " ==> x in [' ', 'c', 'o', 'p', 'y'];
    assert forall x :: x in c ==> x in n || x in " copy " || x in UploadPlan.Decimal(nanos);
  }

  /** Whatever name is found can be addressed by requests. */
  lemma {:induction false} UniqueUserName(fs: Fs, dir: Path, n: Name, k: nat, nanos: nat)
    requires UserName(n) && k <= MAX_CANDIDATES
    ensures UserName(UniqueName(fs, dir, n, k, nanos))
    decreases MAX_CANDIDATES - k
  {
    hide UserName, CopyNameCandidate, FallbackName, StatMissing;
    FallbackUserName(n, nanos);
    if k < MAX_CANDIDATES {
      CandidateUserName(n, k);
      UniqueUserName(fs, dir, n, k + 1, nanos);
    }
  }

  lemma DirectUploadStep(w: World, path: string, filename: string, data: Bytes)
    requires TreeOk(w.fs, w.next)
    ensures GrowStep(w, DirectUploadSpec(w, path, filename, data).0)
  {
    hide TreeOk, Grown, GrowStep, Resolve, SanitizeName, UserPath, UserName, IsTrashPath, Create;
    Unchanged(w);
    var dir, n := Locate(w, path), SanitizeName(filename);
    if !(n == "" || '\0' in n || dir.Err?) {
      LocateUser(w, path);
      SanitizedName(filename);
      CreateStep(w, dir.value, n, File(w.next, data));
    }
  }

  lemma DropUploadStep(w: World, path: string, filename: string, nanos: nat, data: Bytes)
    requires TreeOk(w.fs, w.next)
    ensures GrowStep(w, DropUploadSpec(w, path, filename, nanos, data).0)
  {
    hide TreeOk, Grown, GrowStep, Resolve, SanitizeName, UserPath, UserName, UniqueName, Create;
    Unchanged(w);
    var dir, n := Locate(w, path), SanitizeName(filename);
    if !(n == "" || '\0' in n || dir.Err?) {
      LocateUser(w, path);
      SanitizedName(filename);
      UniqueUserName(w.fs, dir.value, n, 0, nanos);
      CreateStep(w, dir.value, UniqueName(w.fs, dir.value, n, 0, nanos), File(w.next, data));
    }
  }

  // ---------------------------------------------------------------- copies

  /** The source and the place of a copy. */
  ghost predicate CopyReadyAt(w: World, c: Choice) {
    c.Chosen? ==> c.src in w.fs && c.src != [] && IsDir(w.fs, c.dir) && UserSpot(c.dir + [c.name])
  }

  lemma NamedFor(fs: Fs, dir: Path, n: Name, nanos: nat)
    requires UserPath(dir) && UserName(n)
    ensures UserSpot(dir + [NameFor(fs, dir, n, nanos)]) && UserSpot(dir + [UniqueName(fs, dir, n, 0, nanos)])
  {
    hide UserName, UniqueName, EvalSymlinks;
    UniqueUserName(fs, dir, n, 0, nanos);
    SpotIn(dir, UniqueName(fs, dir, n, 0, nanos));
    SpotIn(dir, n);
  }

  lemma ChoiceReady(w: World, e: Event)
    requires TreeOk(w.fs, w.next)
    ensures CopyReadyAt(w, ChoiceOf(w, e))
  {
    hide TreeOk, Resolve, UserPath, UserName, UserSpot, IsTrashPath, Inside, NameFor, UniqueName, EvalSymlinks, Trim;
    match e
    case Copy(path, destDir, nanos) =>
      if ChoiceOf(w, e).Chosen? {
        LocateUser(w, path);
        LocateUser(w, destDir);
        LastOfUser(ChoiceOf(w, e).src);
        NamedFor(w.fs, ChoiceOf(w, e).dir, Last(ChoiceOf(w, e).src), nanos);
      }
    case Duplicate(path, nanos) =>
      if ChoiceOf(w, e).Chosen? {
        var src := ChoiceOf(w, e).src;
        LocateUser(w, path);
        LastOfUser(src);
        AboveUserPath(src);
        NamedFor(w.fs, Parent(src), Last(src), nanos);
        SoundParent(w, src);
      }
    case _ =>
  }

  lemma AboveUserPath(p: Path)
    requires UserPath(p) && p != []
    ensures UserPath(Parent(p))
  {
  }

  lemma SoundParent(w: World, p: Path)
    requires TreeOk(w.fs, w.next) && p in w.fs && p != []
    ensures IsDir(w.fs, Parent(p))
  {
    InTree(w.fs, p);
  }

  /** A copy to a free name only adds. */
  lemma CopyStep(w: World, c: Choice)
    requires TreeOk(w.fs, w.next) && CopyReadyAt(w, c) && !(c.Chosen? && c.dir + [c.name] in w.fs)
    ensures GrowStep(w, CopyChosen(w, c).0)
  {
    hide TreeOk, Grown, UserSpot, CopyOrRollBack, CopyPathSpec;
    Unchanged(w);
    if c.Chosen? {
      CopyGrows(w, c.src, c.dir + [c.name]);
    }
  }

  /** A removal outside the trash. */
  ghost predicate DisplaceStep(w: World, w': World, p: Path) {
    w' == w.(fs := RemoveAll(w.fs, p)) && UserSpot(p)
  }

  /** A copy to a taken name fails and removes what stands there. */
  lemma CopyDisplaces(w: World, c: Choice)
    requires TreeOk(w.fs, w.next) && CopyReadyAt(w, c) && c.Chosen? && c.dir + [c.name] in w.fs
    ensures !CopyChosen(w, c).1 && DisplaceStep(w, CopyChosen(w, c).0, c.dir + [c.name])
  {
    hide WellFormed, NoLinks, UniqueInos, UserSpot, CopyList, Listing;
    var list := Listing(w.fs, c.src);
    ListingRange(w.fs, c.src, list);
    ListingTopDown(w.fs, c.src);
    StopsAtOnce(Copying.Progress(w.fs, w.next, 0, 0, true), w.fs, c.src, c.dir + [c.name], list, |list|);
  }

  lemma DisplaceLive(w: World, w': World, p: Path)
    requires TreeOk(w.fs, w.next) && DisplaceStep(w, w', p)
    ensures LiveStep(w, w')
    ensures forall q :: q in w'.fs <==> q in w.fs && !(p <= q)
    ensures forall q :: q in w'.fs ==> w'.fs[q] == w.fs[q]
  {
    hide WellFormed, NoLinks, UniqueInos, UserSpot, RemoveAll, ItemPath;
    UserApartFromTrash(p, "");
    RemovedTreeOk(w.fs, w.next, p);
    forall id: string ensures SameSubtree(w.fs, ItemPath(id), w'.fs, ItemPath(id)) {
      UserApartFromTrash(p, id);
      RemovedElsewhere(w.fs, p, ItemPath(id));
    }
    RemovedAt(w.fs, p);
  }

  lemma RemovedAt(fs: Fs, p: Path)
    ensures var fs' := RemoveAll(fs, p);
            && (forall q :: q in fs' <==> q in fs && !(p <= q)) && (forall q :: q in fs' ==> fs'[q] == fs[q])
  {
  }

  lemma LastOfUser(p: Path)
    requires UserPath(p) && p != []
    ensures UserName(Last(p))
  {
  }

  lemma GrowLive(w: World, w': World)
    requires GrowStep(w, w')
    ensures LiveStep(w, w') && Files(w.fs) <= Files(w'.fs)
  {
    GrownEffect(w.fs, w.next, w'.fs, w'.next);
  }

  lemma AddingStep(w: World, e: Event)
    requires TreeOk(w.fs, w.next) && Possible(w, e) && Adding(e) && !Displaces(w, e)
    ensures GrowStep(w, Next(w, e))
  {
    hide TreeOk, GrowStep, MkdirSpec, UploadFoldersSpec, UploadSpec, DirectUploadSpec, DropUploadSpec, CopyChosen,
      CopyChoice, DuplicateChoice, CopyReadyAt;
    ChoiceReady(w, e);
    match e
    case Mkdir(path, name) => MkdirStep(w, path, name);
    case UploadFolders(path) => UploadFoldersStep(w, path);
    case Upload(path, name, data) => UploadStep(w, path, name, data);
    case DirectUpload(path, filename, data) => DirectUploadStep(w, path, filename, data);
    case DropUpload(path, filename, nanos, data) => DropUploadStep(w, path, filename, nanos, data);
    case Copy(_, _, _) => CopyStep(w, ChoiceOf(w, e));
    case Duplicate(_, _) => CopyStep(w, ChoiceOf(w, e));
  }

  lemma DisplacingStep(w: World, e: Event)
    requires TreeOk(w.fs, w.next) && Possible(w, e) && Displaces(w, e)
    ensures Adding(e) && DisplaceStep(w, Next(w, e), DisplacedAt(w, e)) && LiveStep(w, Next(w, e))
  {
    hide TreeOk, CopyChosen, CopyChoice, DuplicateChoice, DisplaceStep, LiveStep;
    ChoiceReady(w, e);
    CopyDisplaces(w, ChoiceOf(w, e));
    DisplaceLive(w, Next(w, e), DisplacedAt(w, e));
  }

  /** In either case the event keeps what a live step keeps. */
  lemma AddingLive(w: World, e: Event)
    requires TreeOk(w.fs, w.next) && Possible(w, e) && Adding(e)
    ensures var w' := Next(w, e);
            && LiveStep(w, w') && w'.shares == w.shares && (!Displaces(w, e) ==> Files(w.fs) <= Files(w'.fs))
  {
    hide TreeOk, Next, Possible, Displaces, Files, LiveStep, Grown;
    if Displaces(w, e) {
      DisplacingStep(w, e);
    } else {
      AddingStep(w, e);
      GrowLive(w, Next(w, e));
    }
  }

  // ---------------------------------------------------------------- trashing

  /** The record is in memory and on disk. */
  predicate Held(w: World, item: Item) {
    item in w.items && item in w.saved
  }

  /** A stored entry and its record survive a change. */
  ghost predicate Keeps(w: World, w': World, item: Item) {
    Held(w, item) ==> Held(w', item) && SameSubtree(w.fs, ItemPath(item.id), w'.fs, ItemPath(item.id))
  }

  /** The tree stays sound, with all its files, and records still match if they did. */
  ghost predicate SafeStep(w: World, w': World) {
    && Sound(w') && w.next <= w'.next && Files(w'.fs) == Files(w.fs)
    && (AllStored(w.fs, w.items) ==> AllStored(w'.fs, w'.items))
  }

  lemma KeepsItself(w: World, item: Item)
    ensures Keeps(w, w, item)
  {
    SameItself(w.fs, ItemPath(item.id));
  }

  lemma KeepsTransitive(a: World, b: World, c: World, item: Item)
    requires Keeps(a, b, item) && Keeps(b, c, item)
    ensures Keeps(a, c, item)
  {
    if Held(a, item) {
      SameSubtreeTransitive(a.fs, ItemPath(item.id), b.fs, ItemPath(item.id), c.fs, ItemPath(item.id));
    }
  }

  lemma LiveKeeps(w: World, w': World, item: Item)
    requires LiveStep(w, w')
    ensures Keeps(w, w', item)
  {
    assert SameSubtree(w.fs, ItemPath(item.id), w'.fs, ItemPath(item.id));
  }

  lemma HeldIsNotFresh(w: World, item: Item, id: string)
    requires Held(w, item) && FreshId(w, id)
    ensures item.id != id
  {
    InIds(w.items, item.id);
  }

  lemma TrashKeeps(w: World, src: Path, rel: string, id: string, now: int, item: Item)
    requires FreshId(w, id) && UserSpot(src) && src in w.fs
    ensures Keeps(w, AfterTrash(w, src, rel, id, now), item)
  {
    hide Moved, UserSpot, ItemPath;
    if Held(w, item) {
      HeldIsNotFresh(w, item, id);
      OthersStay(w.fs, src, ItemPath(id), id, item.id);
    }
  }

  lemma StillFresh(w: World, src: Path, rel: string, id: string, now: int, other: string)
    requires FreshId(w, other) && other != id && UserSpot(src) && src in w.fs
    ensures FreshId(AfterTrash(w, src, rel, id, now), other)
  {
    hide Moved, UserSpot, ItemPath, ValidShareToken, Ids;
    OthersStay(w.fs, src, ItemPath(id), id, other);
    IdsAppend(w.items, Item(id, rel, Base(rel), w.fs[src].Dir?, now), other);
  }

  /** `TrashAndUnshare` leaves the tree as `moveToTrash` does. */
  lemma TrashStepOk(w: World, path: string, id: string, now: int, ok: bool, ok2: bool, item: Item)
    requires Sound(w) && FreshId(w, id)
    ensures var w' := TrashAndUnshare(w, path, id, now, ok, ok2).0;
            && SafeStep(w, w') && w'.made == w.made && Keeps(w, w', item)
            && forall other: string :: FreshId(w, other) && other != id ==> FreshId(w', other)
  {
    hide Sound, FreshId, Keeps, Moved, ItemPath, UserSpot, CleanRooted, Files, AllStored, MoveToTrash,
      RemoveByPathPrefixSpec, TreeOk;
    SoundTree(w);
    MoveToTrashOutcome(w, path, id, now, ok);
    var r := MoveToTrash(w, path, id, now, ok);
    KeepsItself(w, item);
    if r.1 {
      var rel := Trim(path, "/");
      var src := CleanRooted(Slashed(rel));
      var w1 := AfterTrash(w, src, rel, id, now);
      TrashSound(w, src, rel, id, now);
      TrashKeeps(w, src, rel, id, now, item);
      forall other: string | FreshId(w, other) && other != id ensures FreshId(w1, other) {
        StillFresh(w, src, rel, id, now, other);
      }
      var w' := TrashAndUnshare(w, path, id, now, ok, ok2).0;
      OnlyShares(w, w1, w', item);
      forall other: string | FreshId(w1, other) ensures FreshId(w', other) {
        FreshIgnoresShares(w1, w', other);
      }
    }
  }

  lemma OnlyShares(w: World, w1: World, w': World, item: Item)
    requires w' == w1.(shares := w'.shares) && Sound(w1) && Keeps(w, w1, item)
    ensures Sound(w') && Keeps(w, w', item)
  {
  }

  lemma FreshIgnoresShares(w1: World, w': World, id: string)
    requires w' == w1.(shares := w'.shares) && FreshId(w1, id)
    ensures FreshId(w', id)
  {
  }

  lemma SafeItself(w: World)
    requires Sound(w)
    ensures SafeStep(w, w)
  {
  }

  lemma SafeTransitive(a: World, b: World, c: World)
    requires SafeStep(a, b) && SafeStep(b, c)
    ensures SafeStep(a, c)
  {
  }

  lemma {:induction false} BulkDeleteStep(w: World, paths: seq<string>, ids: seq<string>, now: int, oks: seq<Saves>,
                                          n: nat, item: Item)
    requires Sound(w) && n <= |paths| == |ids| == |oks| && FreshIds(w, ids, 0)
    ensures var p := BulkDeleteTo(w, paths, ids, now, oks, n);
            && p.moved + |p.failed| == n
            && SafeStep(w, p.w) && p.w.made == w.made && Keeps(w, p.w, item) && FreshIds(p.w, ids, n)
  {
    hide Sound, FreshId, Keeps, SafeStep, TrashAndUnshare;
    if n == 0 {
      SafeItself(w);
      KeepsItself(w, item);
    } else {
      BulkDeleteStep(w, paths, ids, now, oks, n - 1, item);
      var before := BulkDeleteTo(w, paths, ids, now, oks, n - 1).w;
      SafeSound(w, before);
      TrashStepOk(before, paths[n - 1], ids[n - 1], now, oks[n - 1].trash, oks[n - 1].shares, item);
      var after := TrashAndUnshare(before, paths[n - 1], ids[n - 1], now, oks[n - 1].trash, oks[n - 1].shares).0;
      SafeTransitive(w, before, after);
      KeepsTransitive(w, before, after, item);
      forall i | n <= i < |ids| ensures FreshId(after, ids[i]) {
        assert FreshId(before, ids[i]) && ids[i] != ids[n - 1];
      }
    }
  }

  lemma SafeSound(w: World, w': World)
    requires SafeStep(w, w')
    ensures Sound(w') && TreeOk(w'.fs, w'.next)
  {
  }

  /** In a bulk delete every path is counted once, as moved or as failed, and no file is lost. */
  lemma BulkDeleteCounts(w: World, paths: seq<string>, ids: seq<string>, now: int, oks: seq<Saves>, item: Item)
    requires Sound(w) && |oks| == |ids| == |Unique(paths)| && FreshIds(w, ids, 0)
    ensures var r := BulkDeleteSpec(w, paths, ids, now, oks);
            && SafeStep(w, BulkResult(w, r)) && Keeps(w, BulkResult(w, r), item)
            && (r.Some? ==> r.value.moved + |r.value.failed| == |Unique(paths)|)
  {
    hide Sound, FreshIds, Keeps, SafeStep, BulkDeleteTo, UniqueTo;
    SafeItself(w);
    KeepsItself(w, item);
    BulkDeleteStep(w, Unique(paths), ids, now, oks, |Unique(paths)|, item);
  }

  /** In a bulk move every path is counted once, and the destination found before the loop is still the
      same directory at the end. */
  lemma BulkMoveCounts(w: World, paths: seq<string>, destDir: string, oks: seq<bool>)
    requires TreeOk(w.fs, w.next) && |oks| == |Unique(paths)|
    ensures var r := BulkMoveSpec(w, paths, destDir, oks);
            && LiveStep(w, BulkResult(w, r)) && Files(BulkResult(w, r).fs) == Files(w.fs)
            && (r.Some? ==>
                  && r.value.moved + |r.value.failed| == |Unique(paths)|
                  && var dest := CleanRooted(Slashed(destDir));
                     IsDir(w.fs, dest) && dest in r.value.w.fs && r.value.w.fs[dest] == w.fs[dest])
  {
    hide TreeOk, LiveStep, Files, Resolve, BulkMoveTo, UniqueTo, UserPath, CleanRooted, IsTrashPath;
    Idle(w);
    if BulkMoveSpec(w, paths, destDir, oks).Some? {
      LocateUser(w, destDir);
      BulkMoveStep(w, Unique(paths), CleanRooted(Slashed(destDir)), destDir, oks, |Unique(paths)|);
    }
  }

  lemma DeleteStepOk(w: World, path: string, confirmName: string, id: string, now: int, ok: bool, ok2: bool, item: Item)
    requires Sound(w) && FreshId(w, id)
    ensures var w' := DeleteSpec(w, path, confirmName, id, now, ok, ok2).0;
            SafeStep(w, w') && Keeps(w, w', item)
  {
    hide Sound, FreshId, Keeps, SafeStep, TrashAndUnshare, Resolve;
    SafeItself(w);
    KeepsItself(w, item);
    TrashStepOk(w, Trim(path, "/"), id, now, ok, ok2, item);
  }

  lemma RestoreKeeps(w: World, id: string, ok: bool, item: Item)
    requires Sound(w) && item.id != id
    ensures Keeps(w, RestoreSpec(w, id, ok).0, item)
  {
    hide RestoreSpec, Moved, ItemPath, Grown, MkdirAll, CleanRooted, Slashed, UserSpot, IsDir, Recorded, Files, TreeOk,
      SameSubtree, Dropped;
    var how := RestoreOutcome(w, id, ok);
    var w' := RestoreSpec(w, id, ok).0;
    var p := ItemPath(item.id);
    if Held(w, item) {
      var i := ItemAt(w.items, id);
      if i < |w.items| {
        InDropped(w.items, i, item);
      }
      match how {
        case Untouched => SameItself(w.fs, p);
        case Forgotten => SameItself(w.fs, p);
        case Unfolded =>
          GrownEffect(w.fs, w.next, w'.fs, w'.next);
          SameOne(w.fs, w'.fs, item.id);
        case Back =>
          var dest := CleanRooted(Slashed(w.items[i].path));
          SpotNonEmpty(dest);
          var ready := MkdirAll(w.fs, Parent(dest), w.next).value;
          GrownEffect(w.fs, w.next, ready, w.next + |dest|);
          SameOne(w.fs, ready, item.id);
          OthersStay(ready, ItemPath(id), dest, id, item.id);
          SameSubtreeTransitive(w.fs, p, ready, p, w'.fs, p);
      }
    }
  }

  lemma SameOne(fs: Fs, fs': Fs, id: string)
    requires SameTrash(fs, fs')
    ensures SameSubtree(fs, ItemPath(id), fs', ItemPath(id))
  {
  }

  lemma PurgeKeeps(w: World, id: string, ok: bool, item: Item)
    requires Sound(w) && item.id != id
    ensures Keeps(w, PurgeSpec(w, id, ok).0, item)
  {
    hide TreeOk, ItemPath, RemoveAll, Recorded, SameSubtree, ValidShareToken, Dropped;
    KeepsItself(w, item);
    if ValidShareToken(id) {
      PurgedEntry(w.fs, w.next, id);
      var i := ItemAt(w.items, id);
      if i < |w.items| {
        InDropped(w.items, i, item);
      }
    }
  }

  lemma PurgeExpiredKeeps(w: World, cutoff: int, ok: bool, item: Item)
    requires Sound(w) && item.deletedAt >= cutoff
    ensures Keeps(w, PurgeExpiredSpec(w, cutoff, ok), item)
  {
    hide TreeOk, ItemPath, RemoveStored, Recorded, SameSubtree, KeptTo, StaleTo;
    if Held(w, item) {
      var n := |w.items|;
      var stale := StaleTo(w.items, cutoff, n);
      PurgedEntries(w.fs, w.next, stale, |stale|);
      assert stale[..|stale|] == stale && w.items[..n] == w.items;
      StaleById(w.items, cutoff, item);
      KeptMember(w.items, cutoff, n, item);
    }
  }
}
