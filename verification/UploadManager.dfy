/** upload.go: the upload manager as the object it is, one request at a time. UploadProtocol takes the
    same bodies apart at their locks and file operations to run them concurrently. */
module UploadManager {
  import opened FileSystem
  import opened Shares
  import opened UploadPlan

  const UPLOAD_TTL := 24 * HOUR

  datatype Meta = Meta(id: string, dest: string, plan: Plan, createdAt: int)

  /** A scratch directory: meta.json and the other files by name. */
  datatype Scratch = Scratch(meta: Meta, files: map<string, Bytes>)

  /** The indices whose chunk files exist. */
  function ChunksOn(sc: Scratch): set<nat> {
    set i: nat | i < sc.meta.plan.total && ChunkName(i) in sc.files
  }

  predicate AllThere(files: map<string, Bytes>, n: nat) {
    forall i :: 0 <= i < n ==> ChunkName(i) in files
  }

  /** The first `n` chunk files, one after the other. */
  function Concatenated(files: map<string, Bytes>, n: nat): Bytes
    requires AllThere(files, n)
  {
    if n == 0 then [] else Concatenated(files, n - 1) + files[ChunkName(n - 1)]
  }

  predicate SameFile(before: map<string, Bytes>, after: map<string, Bytes>, name: string) {
    if name in before then name in after && after[name] == before[name] else name !in after
  }

  /** What `complete` demands of a session and its destination. */
  predicate Completable(sc: Scratch, dest: map<string, Bytes>) {
    var total := sc.meta.plan.total;
    && |ChunksOn(sc)| == total
    && sc.meta.dest !in dest && sc.meta.dest + ".uploading" !in dest
    && AllThere(sc.files, total) && |Concatenated(sc.files, total)| == sc.meta.plan.size
  }

  /** Having as many chunk files as there are chunks is having them all. */
  lemma CountedIsComplete(sc: Scratch)
    requires |ChunksOn(sc)| == sc.meta.plan.total
    ensures AllThere(sc.files, sc.meta.plan.total)
  {
    var there := ChunksOn(sc);
    FullSet(there, sc.meta.plan.total);
    forall i: nat | i < sc.meta.plan.total ensures ChunkName(i) in sc.files {
      assert i in there;
    }
  }

  /** The assembly loop: opens every chunk file and appends it, failing on one that is not there. */
  method Assemble(files: map<string, Bytes>, total: nat) returns (ok: bool, out: Bytes)
    ensures ok <==> AllThere(files, total)
    ensures ok ==> out == Concatenated(files, total)
  {
    hide ChunkName;
    out := [];
    for i := 0 to total
      invariant AllThere(files, i) && out == Concatenated(files, i)
    {
      if ChunkName(i) !in files {
        return false, out;
      }
      out := out + files[ChunkName(i)];
    }
    return true, out;
  }

  /** The chunk files by index. */
  function ChunkFiles(sc: Scratch): map<nat, Bytes> {
    map i | i in ChunksOn(sc) :: sc.files[ChunkName(i)]
  }

  lemma {:induction false} ConcatenatedAssembles(sc: Scratch, n: nat)
    requires n <= sc.meta.plan.total && AllThere(sc.files, n)
    ensures (forall i :: 0 <= i < n ==> i in ChunkFiles(sc))
            && Concatenated(sc.files, n) == Assembled(ChunkFiles(sc), n)
  {
    hide ChunkName;
    if n > 0 {
      ConcatenatedAssembles(sc, n - 1);
      assert n - 1 in ChunksOn(sc);
    }
  }

  /** While every chunk file has the length the plan gives it, an upload can be completed exactly when all of
      them are there and neither the destination nor its temporary file is. */
  lemma CompletableExactly(sc: Scratch, dest: map<string, Bytes>)
    requires Tiles(sc.meta.plan)
    requires forall i :: i in ChunksOn(sc) ==> |sc.files[ChunkName(i)]| == Expected(sc.meta.plan, i)
    ensures Completable(sc, dest) <==>
              && (forall i: nat :: i < sc.meta.plan.total ==> ChunkName(i) in sc.files)
              && sc.meta.dest !in dest && sc.meta.dest + ".uploading" !in dest
  {
    hide ChunkName, Expected, Tiles;
    var total := sc.meta.plan.total;
    SomeChunk(sc.meta.plan);
    if forall i: nat :: i < total ==> ChunkName(i) in sc.files {
      AllCounted(sc);
      ConcatenatedAssembles(sc, total);
      AssembledLength(sc.meta.plan, ChunkFiles(sc), total);
    } else if |ChunksOn(sc)| == total {
      CountedIsComplete(sc);
    }
  }

  lemma SomeChunk(p: Plan)
    requires Tiles(p)
    ensures p.total >= 1 && Start(p, p.total) == p.size
  {
  }

  lemma AllCounted(sc: Scratch)
    requires sc.meta.plan.total >= 0 && forall i: nat :: i < sc.meta.plan.total ==> ChunkName(i) in sc.files
    ensures |ChunksOn(sc)| == sc.meta.plan.total && ChunkFiles(sc).Keys == ChunksOn(sc)
  {
    hide ChunkName;
    BelowFacts(sc.meta.plan.total);
    assert ChunksOn(sc) == Below(sc.meta.plan.total);
  }

  function Below(n: nat): set<nat> {
    if n == 0 then {} else Below(n - 1) + {n - 1}
  }

  lemma {:induction false} BelowFacts(n: nat)
    ensures |Below(n)| == n && forall i: nat :: i in Below(n) <==> i < n
  {
    if n > 0 {
      BelowFacts(n - 1);
    }
  }

  /** Chunk files that are the slices of a payload are the payload, one after the other. */
  lemma ConcatenatedPayload(sc: Scratch, payload: Bytes)
    requires Tiles(sc.meta.plan) && |payload| == sc.meta.plan.size && AllThere(sc.files, sc.meta.plan.total)
    requires forall i: nat :: i < sc.meta.plan.total ==>
               && IsSlice(sc.meta.plan, payload, sc.files[ChunkName(i)], i)
               && |sc.files[ChunkName(i)]| == Expected(sc.meta.plan, i)
    ensures Concatenated(sc.files, sc.meta.plan.total) == payload
  {
    hide ChunkName, Expected, Tiles, IsSlice;
    SomeChunk(sc.meta.plan);
    AllCounted(sc);
    ConcatenatedAssembles(sc, sc.meta.plan.total);
    PayloadRestored(sc.meta.plan, payload, ChunkFiles(sc));
  }

  /** The elements of `x` below `n`, in increasing order. */
  function Ascending(x: set<nat>, n: nat): seq<nat> {
    if n == 0 then [] else Ascending(x, n - 1) + if n - 1 in x then [n - 1] else []
  }

  lemma {:induction false} AscendingFacts(x: set<nat>, n: nat)
    ensures forall i :: i in Ascending(x, n) <==> i in x && i < n
    ensures forall i, j :: 0 <= i < j < |Ascending(x, n)| ==> Ascending(x, n)[i] < Ascending(x, n)[j]
  {
    if n > 0 {
      AscendingFacts(x, n - 1);
      var a := Ascending(x, n - 1);
      forall i | 0 <= i < |a| ensures a[i] < n - 1 {
        assert a[i] in a;
      }
    }
  }

  lemma SameFiles(files: map<string, Bytes>)
    ensures forall i: nat :: SameFile(files, files, ChunkName(i))
  {
    hide ChunkName;
  }

  /** Writing and removing a temporary file changes no chunk file; renaming it into place changes one. */
  lemma ReplacingOneFile(sc: Scratch, index: nat, body: Bytes)
    requires index < sc.meta.plan.total
    ensures var removed := sc.(files := sc.files[TmpName(index) := body] - {TmpName(index)});
            && ChunksOn(removed) == ChunksOn(sc)
            && forall i: nat :: SameFile(sc.files, removed.files, ChunkName(i))
    ensures var placed := sc.(files := (sc.files[TmpName(index) := body] - {TmpName(index)})[ChunkName(index) := body]);
            && ChunksOn(placed) == ChunksOn(sc) + {index}
            && forall i: nat :: i == index || SameFile(sc.files, placed.files, ChunkName(i))
  {
    forall i: nat ensures ChunkName(i) != TmpName(index) && (ChunkName(i) == ChunkName(index) ==> i == index) {
      ChunkNamesDistinct(i, index);
    }
  }

  class ActiveUpload {
    const meta: Meta
    var received: set<nat>
    var aborted: bool

    constructor (meta: Meta, received: set<nat>)
      ensures this.meta == meta && this.received == received && !aborted
    {
      this.meta := meta;
      this.received := received;
      aborted := false;
    }
  }

  class UploadManager {
    var disk: map<string, Scratch>
    var active: map<string, ActiveUpload>
    var dest: map<string, Bytes>  // destination files, ".uploading" ones included

    /** An active session has its directory, and `received` is what lies in it. */
    ghost predicate InStep(id: string)
      requires id in active
      reads this, active[id]
    {
      && id in disk && disk[id].meta == active[id].meta
      && !active[id].aborted && active[id].received == ChunksOn(disk[id])
    }

    ghost predicate Valid()
      reads this, active.Values
    {
      (forall id :: id in disk ==> disk[id].meta.id == id) && forall id :: id in active ==> InStep(id)
    }

    /** No other session is the same object. */
    ghost predicate Alone(id: string)
      requires id in active
      reads this
    {
      forall other :: other in active && other != id ==> active[other] != active[id]
    }

    /** A session that a request can use at time `now`. */
    ghost predicate Usable(id: string, now: int)
      reads this
    {
      ValidShareToken(id) && id in disk && now - disk[id].meta.createdAt <= UPLOAD_TTL
    }

    /** `init` once the name and the destination directory are accepted: `id` is a fresh token. */
    method Init(id: string, path: string, size: int, requested: int, maxUpload: int, now: int) returns (ok: bool)
      requires Valid() && ValidShareToken(id) && id !in disk
      modifies this
      ensures Valid() && dest == old(dest)
      ensures ok <==> 0 <= size <= maxUpload && path !in dest
      ensures ok ==> disk == old(disk)[id := Scratch(Meta(id, path, PlanFor(size, requested), now), map[])]
      ensures ok ==> Usable(id, now)
      ensures !ok ==> disk == old(disk) && active == old(active)
    {
      if size < 0 || size > maxUpload || path in dest {
        return false;
      }
      var meta := Meta(id, path, PlanFor(size, requested), now);
      disk := disk[id := Scratch(meta, map[])];
      var a := new ActiveUpload(meta, {});
      active := active[id := a];
      assert ChunksOn(disk[id]) == {};
      return true;
    }

    method ScanReceivedDisk(id: string) returns (got: set<nat>)
      requires id in disk
      ensures got == ChunksOn(disk[id])
    {
      got := {};
      var i := 0;
      while i < disk[id].meta.plan.total
        invariant 0 <= i
        invariant got == set k: nat | k < i && k < disk[id].meta.plan.total && ChunkName(k) in disk[id].files
      {
        if ChunkName(i) in disk[id].files {
          got := got + {i};
        }
        i := i + 1;
      }
    }

    /** Finds the session in memory or loads it from disk once. An expired one is removed. */
    method Acquire(id: string, now: int) returns (a: ActiveUpload?)
      requires Valid()
      modifies this
      ensures Valid() && dest == old(dest)
      ensures a != null <==> old(Usable(id, now))
      ensures a != null ==> id in active && active[id] == a && disk == old(disk) && Usable(id, now)
      ensures a != null ==> (fresh(a) || a in old(active.Values))
      ensures a == null ==> disk == old(disk) - (if ValidShareToken(id) then {id} else {})
    {
      if !ValidShareToken(id) {
        return null;
      }
      if id in active {
        if now - active[id].meta.createdAt > UPLOAD_TTL {
          active := active - {id};
          disk := disk - {id};
          return null;
        }
        return active[id];
      }
      if id !in disk {
        return null;
      }
      if now - disk[id].meta.createdAt > UPLOAD_TTL {
        disk := disk - {id};
        return null;
      }
      var received := ScanReceivedDisk(id);
      a := new ActiveUpload(disk[id].meta, received);
      active := active[id := a];
    }

    /** Accepts a chunk of exactly the expected length and replaces its file; anything else leaves every
        chunk file as it was. */
    method WriteChunk(id: string, index: int, body: Bytes, declared: int, now: int) returns (ok: bool)
      requires Valid()
      modifies this, active.Values
      ensures Valid() && dest == old(dest)
      ensures ok <==> old(Usable(id, now)) && (var plan := old(disk)[id].meta.plan;
                && 0 <= index < plan.total && (declared < 0 || declared == Expected(plan, index))
                && |body| == Expected(plan, index))
      ensures ok ==> id in disk && ChunksOn(disk[id]) == ChunksOn(old(disk)[id]) + {index}
      ensures ok ==> disk[id].files[ChunkName(index)] == body
      ensures old(Usable(id, now)) ==>
                && id in disk && disk[id].meta == old(disk)[id].meta
                && forall i: nat :: (ok && i == index) || SameFile(old(disk)[id].files, disk[id].files, ChunkName(i))
      ensures !old(Usable(id, now)) ==> disk == old(disk) - (if ValidShareToken(id) then {id} else {})
      ensures forall other :: other != id ==>
                (other in disk <==> other in old(disk)) && (other in disk ==> disk[other] == old(disk)[other])
    {
      hide ChunksOn, Usable, Expected, TmpName, ChunkName, ValidShareToken, SameFile;
      var a := Acquire(id, now);
      if a == null {
        return false;
      }
      SameFiles(disk[id].files);
      var plan := a.meta.plan;
      if a.aborted || index < 0 || index >= plan.total {
        return false;
      }
      var expected := Expected(plan, index);
      if expected < 0 || (declared >= 0 && declared != expected) {
        return false;
      }
      ghost var before := disk[id];
      assert Alone(id);
      ReplacingOneFile(before, index, body);
      var files := disk[id].files[TmpName(index) := body];
      label Before:
      if |body| != expected {
        disk := disk[id := disk[id].(files := files - {TmpName(index)})];
      } else {
        disk := disk[id := disk[id].(files := (files - {TmpName(index)})[ChunkName(index) := body])];
        a.received := a.received + {index};
      }
      assert InStep(id);
      forall other | other in active && other != id ensures InStep(other) {
        assert old@Before(InStep(other));
        assert active[other] != a && disk[other] == old@Before(disk[other]);
      }
      return |body| == expected;
    }

    /** Assembles the destination: succeeds exactly when every chunk is there, the destination is free and
        the total is right, and then the destination is the chunk files in order and the session is gone. */
    method Complete(id: string, now: int) returns (ok: bool)
      requires Valid()
      modifies this, active.Values
      ensures Valid()
      ensures ok <==> old(Usable(id, now)) && Completable(old(disk)[id], old(dest))
      ensures ok ==> var sc := old(disk)[id];
                && dest == old(dest)[sc.meta.dest := Concatenated(sc.files, sc.meta.plan.total)]
                && |dest[sc.meta.dest]| == sc.meta.plan.size
                && disk == old(disk) - {id} && id !in active
      ensures !ok ==> dest == old(dest) && (old(Usable(id, now)) ==> disk == old(disk))
    {
      hide ChunksOn, AllThere, Concatenated, Usable, ChunkName, ValidShareToken, Expected;
      var a := Acquire(id, now);
      if a == null || a.aborted {
        return false;
      }
      assert Alone(id);
      var total := a.meta.plan.total;
      if |a.received| != total {
        return false;
      }
      if a.meta.dest in dest || a.meta.dest + ".uploading" in dest {
        return false;
      }
      var there, out := Assemble(disk[id].files, total);
      if !there || |out| != a.meta.plan.size {
        return false;
      }
      dest := dest[a.meta.dest := out];
      a.aborted := true;
      active := active - {id};
      disk := disk - {id};
      return true;
    }

    method Abort(id: string) returns (ok: bool)
      requires Valid()
      modifies this, active.Values
      ensures Valid() && dest == old(dest)
      ensures ok <==> ValidShareToken(id) && id in old(disk)
      ensures disk == (if ok then old(disk) - {id} else old(disk))
      ensures active == (if ok then old(active) - {id} else old(active))
    {
      if !ValidShareToken(id) {
        return false;
      }
      if id in active {
        var a := active[id];
        active := active - {id};
        a.aborted := true;
      } else if id !in disk {
        return false;
      }
      disk := disk - {id};
      return true;
    }

    /** `status` and `receivedList`: the received indices in increasing order. */
    method Status(id: string, now: int) returns (ok: bool, got: seq<nat>)
      requires Valid()
      modifies this
      ensures Valid() && dest == old(dest)
      ensures ok <==> old(Usable(id, now))
      ensures ok ==> disk == old(disk)
      ensures ok ==>
                var total := disk[id].meta.plan.total;
                got == Ascending(ChunksOn(disk[id]), if total > 0 then total else 0)
    {
      got := [];
      var a := Acquire(id, now);
      if a == null {
        return false, got;
      }
      var i := 0;
      while i < a.meta.plan.total
        invariant 0 <= i && (i <= a.meta.plan.total || i == 0)
        invariant got == Ascending(a.received, i)
      {
        if i in a.received {
          got := got + [i];
        }
        i := i + 1;
      }
      return true, got;
    }
  }
}
