# Verification of dingbap's archive core

dingbap is a file archive server. Its state is one directory tree and a handful of mutex-guarded
structures: the share table, the trash records, the sessions, the login failures, the accounts, the
upload sessions and the listing cache. This project models that core in Dafny and proves what the server
relies on. `dafny verify dfyconfig.toml` checks everything.

How it is laid out, from the ground up:

- `Paths`, `FileSystem`, `Tree`: path strings and their components, a tree as a finite map from paths to
  nodes with identities, directory listings, and the system calls that change a tree.
- `Resolver`, `ResolverTarget`, `ShareServing`: `safePath` on trees with symbolic links, which path a request
  gets in terms of the kernel's lookup, and the containment of public shares.
- `Shares`, `ShareValidity`, `ShareQuotas`: the share store as an object, which shares are still good in terms of
  their fields, and the quotas over all runs.
- `UploadNames`, `UploadPlan`, `UploadProtocol`, `UploadProgress`, `UploadManager`: where an upload goes; chunk
  arithmetic in int64; any number of upload threads taken apart at their locks and file calls, with crashes,
  and what always holds of them; what they get done; and the manager as an object, one call at a time.
- `Copying`, `Copier`: what a copy takes, its limits and rollback; and the recursive copy with shared counters.
- `Archive` and the modules named after it: every request that changes the tree, the trash or the shares,
  as a function on the whole state (`Archive`), what single requests do (`ArchiveEffects`, `ArchiveSteps`,
  `ArchiveTrash`, `ArchiveOutcomes`, `ArchiveRequests`), whole runs (`ArchiveRuns`, `ArchiveTheorems`), what copies
  take away (`ArchiveCopies`), the share table against the tree (`ArchiveShares`, `ArchiveFollows`), what other spellings
  of a path do to it (`ArchiveSpelling`), the rename of the storage root (`StorageRoot`), and the handlers as
  methods on a server object (`ArchiveServer`).
- `Sessions`, `SessionCalls`, `SessionManager`, `LoginLimiter`: sessions and their file under concurrency, what
  becomes of single calls, the manager as an object, and the lockout over time.
- `Accounts`, `AccountOutcomes`, `UserStore`: accounts with pending second-factor logins, what each request needs
  and does, and the store as an object.
- `ListingCache`, `CacheStore`, `Listings`: the LRU cache as lists and as an object, and directory listings
  through it.
- `Search`, `SearchMatches`, `SearchEnds`, `SearchVisible`: the breadth-first search over listings, what it
  reports, the trees on which it ends, and which entries it meets.
- `AtomicWrite`: replacing a file on a disk that loses what was not synced.

Code that updates state in place is modelled as classes and methods whose contracts equate the new state
with a function of the old one; the lemmas are about those functions. Clocks, random tokens, the outcome of
saves and of cryptographic checks are parameters, so every theorem holds for all of them.

Some properties the code is meant to have fail in a corner. The model keeps the code's behaviour; each has a
lemma saying exactly when it holds, and most have a concrete failing case beside it:

- Resolving a resolved path again gives another answer when a directory name holds a backslash
  (`Resolver.IdempotentExactly`, `Resolver.BackslashCounterexample`).
- The chunk count overflows int64 for sizes within a chunk of the maximum (`UploadPlan.TilesExactly`); such a
  plan accepts no chunk.
- The repository's README promises a lockout after 5 failures per minute (README.md:206). An attempt that asks at
  exactly the instant a lock ends is let through without clearing the lock, and its failure is forgotten
  (`LoginLimiter.OnTheDotExactly`, `LoginLimiter.SixInAMoment`).
- A crash while the chunks are being put together leaves the ".uploading" file behind, and no later `complete` of
  that upload can succeed (`UploadProgress.CompleteExactly`, `UploadProgress.LeftoverBlocks`).
- A share is left dangling when a request that moves or deletes its node spells the path otherwise than the table
  does, as in "./a" (`ArchiveSpelling.StepTracksExactly`, `ArchiveSpelling.RenamedAside`). A share created under
  another spelling can be left dangling by a plain move, one created as "a/../d" even by a move of "a" alone
  (`ArchiveSpelling.AsideDanglesExactly`, `ArchiveSpelling.ClimbingAside`).
- A rename with an empty path takes the storage directory itself away (`StorageRoot.RootTakenExactly`).
- A restart after a failed save of the trash records brings back a record whose entry is gone, unless a later save
  succeeded (`ArchiveTheorems.RestartMatchesExactly`, `ArchiveTheorems.StaleAfterRestart`).
- The size limit of a copy is tested in int64, and sparse files can pass it by overflow
  (`Copying.LimitsHoldExactly`, `Copying.PassesBySums`, `Copying.SparsePasses`).
- The rollback of a failed copy removes an older entry when the chosen name is a link that leads nowhere
  (`Copying.RollbackExactly`). Without links too: when all ten thousand names are taken, and the one made from the
  clock as well, a copy or a duplicate deletes what stands under the latter (`ArchiveCopies.CopyLosesExactly`,
  `ArchiveCopies.DuplicateLoses`).
- The search does not end when a directory's name leads back to a directory it was reached from, as "\" and
  "x\.." do, and too little matches (`SearchEnds.LinkFreeEnds`, `SearchEnds.ConcreteLoops`).
- Below a directory whose name ends in a backslash the search reports paths in the spelling that the cache
  happens to hold (`Listings.KeySpellsExactly`, `SearchEnds.TrailingBackslash`).

## Model

| member | source | states |
|---|---|---|
| Paths.PathJoin | handlers.go:679-688 | joins the trimmed pieces, leaving out empty ones and "." |
| Paths.JoinSplit | path.go:78-80 | splitting a string at slashes and joining the pieces gives the string back |
| Paths.SplitJoin | path.go:78-80 | joining slash-free pieces and splitting gives the pieces back |
| Paths.StrictlyBelow | shares.go:320-358 | for paths `p` and `q`, the test `HasPrefix(p, q + "/")` on the joined strings holds exactly when `q` is a proper ancestor of `p` |
| Paths.SwapPrefix | shares.go:337-358 | replacing the string prefix of a joined path is replacing its leading components |
| Paths.CleanIsValid | path.go:70-84 | cleaning a rooted request leaves only real names: no empty piece, no ".", no ".." |
| Paths.CleanAppend | path.go:70-84 | cleaning works piece by piece, from the stack left by the pieces before |
| Paths.ChildPlace | path.go:70-84 | joining a name to a path leads from the path's place through the pieces of the name, backslashes being separators |
| Paths.TrashPathExactly | trash.go:82-85 | a request counts as being in the trash exactly when its first piece is ".trash", wherever it leads |
| Paths.RelDecidesContainment | path.go:190-202 | the string tests on `filepath.Rel(root, target)` hold exactly when `root` contains `target` component by component |
| Resolver.RejectHiddenUnderRoot | path.go:163-186 | the loop over the relative pieces gives the verdict on the first dot-leading or ".." piece |
| Resolver.ResolveUnderRoot | path.go:65-159 | the loop that advances component by component computes the recursive resolution |
| Resolver.WalkIsPhysical | path.go:110-140 | following any chain of links ends on a path none of whose prefixes is a link |
| Resolver.WithinRootMeaning | path.go:190-202 | `withinRoot` is component-wise containment |
| Resolver.RejectHiddenMeaning | path.go:163-186 | a path passes exactly when it lies under the root and no component below the root starts with a dot; a traversal is reported exactly when it does not lie under the root |
| Resolver.ResolveContained | path.go:65-159 | for every request and every tree with links: a returned path lies under the root, has no dot-leading component below it, no link on any existing prefix, exists or could be created, and opening it reaches itself or nothing |
| Resolver.ResolveLexical | path.go:65-159 | on a tree without links resolution succeeds exactly when the request holds no NUL, the cleaned request no dot-leading name, and no file stands in the way; it then is root plus the cleaned request |
| ResolverTarget.ResolveExactly | path.go:65-159 | on every tree, links included, and in both directions: resolution succeeds exactly when the request holds no NUL, no piece of the cleaned request starts with a dot, every link met on the way opens inside the root without a dot-leading name, and the lookup gets through or ends at a name missing from a directory; the path is what looking up the existing pieces one after the other reaches, followed by the rest of the pieces |
| ResolverTarget.ResolveIsLookup | path.go:110-149 | wherever the kernel's lookup of root plus request gets through and the resolver returns a path, it is the path that lookup reaches: nothing after a link is lost |
| ResolverTarget.StageIsLookup | path.go:110-149 | looking up the pieces one after the other is the kernel's lookup of the whole path |
| Resolver.ResolveStable | path.go:65-159 | the relative path of a contained result without backslashes resolves to the same result |
| Resolver.IdempotentExactly | path.go:70-159 | for all trees and requests, resolving a result again returns it exactly when its relative path holds no backslash |
| Resolver.BackslashCounterexample | path.go:70-159 | a tree with one link to a directory whose name holds a backslash resolves differently the second time |
| Resolver.ConfigureStorageRoot | path.go:20-34 | the cached pair is the configured directory and what it resolves to; an error leaves the cache |
| Resolver.SafePathContained | path.go:36-57 | with a cache filled from the same tree or not filled, `safePath` stays inside the directory the configured root stands for |
| ShareServing.TextualTestExactly | shares.go:800-807 | on arbitrary paths the `HasPrefix(rel, "..")` test accepts exactly the contained targets whose first name below the share does not start with two dots |
| ShareServing.TextualTestOnResolved | shares.go:796-807 | on resolver outputs the textual test is exactly containment |
| ShareServing.ServedInsideShare | shares.go:778-809 | whatever inside path is requested, with ".." pieces, backslashes and links, an accepted target lies in the resolved shared folder, for listings and files alike |
| ShareServing.FileShareServesItself | shares.go:778-809 | a share of a file serves that file, exactly when nothing is asked for inside it |
| Shares.NewShare | shares.go:113-213 | a new record carries the token, the trimmed path with its last piece as name, both counters at zero, and has not expired; an expiry lies at most 30 days ahead; a drop share is a folder with expiry and quota; a dated share is made exactly when path, kind and folder agree |
| ShareValidity.CreatedExactly | shares.go:113-213 | what can be shared: a path that is not the root, as a link or, for a folder, as a drop with an end |
| ShareValidity.TokenExactly | shares.go:449-459 | the well-formed tokens are exactly the hexadecimal encodings of 32 bytes |
| ShareValidity.MalformedExactly | shares.go:240-459 | a malformed token finds nothing and leaves the table as it is |
| ShareValidity.UsableMeaning | shares.go:436-447 | a share has expired exactly when it is past its date, has no download left, or as a drop no upload |
| ShareValidity.ServedWhileItLasts | shares.go:113-261 | from creation on: a share is served exactly until its day, week or thirty days are over, or without end, and one for a single download until that |
| ShareValidity.PruneExactly | shares.go:364-373 | after pruning every record within its date and limits is there as often as before, and no other |
| ShareValidity.GetValidExactly | shares.go:240-261 | the share of a token is granted exactly while it is within its date and limits, and is in the table afterwards exactly if it was granted |
| ShareValidity.BeginDownloadExactly | shares.go:267-305 | a download is granted exactly for a link share within its date and limits whose save succeeds; it is counted, and the share is gone with its last one; a drop share is refused and kept |
| ShareValidity.BeginUploadExactly | shares.go:387-416 | a slot is reserved exactly on a drop share within its date and limits whose save succeeds; the counter in memory is raised either way |
| ShareValidity.UndoUndoes | shares.go:387-434 | a reservation given back leaves the share as it was |
| ShareValidity.RevokeExactly | shares.go:307-318 | revoking removes the record of the token, and every other stays as often as it was |
| ShareValidity.RemoveExactly | shares.go:320-335 | removing by path keeps exactly the records that lie elsewhere, as often as they were |
| ShareValidity.RewriteExactly | shares.go:337-358 | rewriting a path gives exactly the records at or below it the new one in its place, with the name that goes with it, and saves only if there is such a record |
| ShareValidity.AppendExactly | shares.go:113-213 | a new share is the last record behind exactly the usable ones, in the file as well if the save succeeds |
| Shares.ShareStore.Append | shares.go:113-213 | prunes, appends and saves, in memory even when the save fails |
| Shares.ShareStore.PruneLocked | shares.go:364-373 | the in-place filter keeps exactly the live records in order |
| Shares.ShareStore.GetValid | shares.go:240-261 | finds the first live record of the token, dropping it when it has expired meanwhile |
| Shares.ShareStore.BeginDownload | shares.go:267-305 | reserves a download before the transfer, undoes the count when the save fails, removes the record at its limit |
| Shares.ShareStore.BeginUpload | shares.go:387-416 | reserves an upload slot; a failed save leaves the counter raised |
| Shares.ShareStore.UndoUpload | shares.go:418-434 | gives one slot back if the record is still there and the counter is positive |
| Shares.ShareStore.Revoke | shares.go:307-318 | removes the first record of the token and says whether there was one |
| Shares.ShareStore.RemoveByPathPrefix | shares.go:320-335 | removes exactly the records at or below the path |
| Shares.ShareStore.RewritePathPrefix | shares.go:337-358 | rewrites path and name of exactly the records at or below the old path |
| ShareQuotas.QuotasHold | shares.go:387-434 | over every run of table operations, drop uploads, failed saves and restarts: a share with a download limit has at most that many successful reservations, and uploads landed plus reservations in flight never exceed the upload limit |
| ShareQuotas.CountsExactly | shares.go:387-434 | what the quotas count: downloads by the verdicts of the store, uploads in flight or landed by its verdicts less those given up |
| ShareQuotas.DownloadsExactly | shares.go:267-305 | when nothing else disturbs the share, exactly the smaller of the limit and the number of attempts succeed |
| UploadNames.CheckName | upload.go:172-190 | accepts a name exactly when every piece passes its checks, and splits it into the folders and the file |
| UploadNames.UploadGoesExactly | upload.go:172-225 | a name is accepted exactly when every piece between slashes or backslashes can be that of a visible entry; the upload then goes through these very pieces below the directory asked for, none dropped and none climbing |
| UploadPlan.ChunkSizeFor | upload.go:194-199 | an admissible request is kept, none means 2 MB, and more than 8 MB is cut to that |
| UploadPlan.QuotientExactly | upload.go:233 | the division of the chunk count rounds toward zero: the remainder is smaller than the divisor and has the sign of the dividend |
| UploadPlan.TilesExactly | upload.go:233-236 | in int64 arithmetic the chunk ranges tile the file exactly when size + chunk - 1 does not overflow; otherwise the count is not positive |
| UploadPlan.CeilingTiles | upload.go:284-290 | with that count every accepted chunk starts where the one before ends, and the last ends at the size |
| UploadPlan.ChunkNamesDistinct | upload.go:74-76 | chunk file names are injective in the index and differ from every temporary name and the metadata name |
| UploadPlan.PaddedExactly | upload.go:74-76 | chunk numbers have six digits at least, no zero in front of more, and read back as the index |
| UploadPlan.AssembledLength | upload.go:350-378 | chunks of the expected lengths add up to the offsets of the plan |
| UploadPlan.PayloadRestored | upload.go:350-378 | chunks that are the payload's slices assemble to the payload |
| UploadProtocol.AtMostOneCompletes | upload.go:328-409 | in every interleaving of any number of threads, with crashes and rehydration: the destination is published at most once, and it holds the accepted chunks in order, all of them, each of its exact length |
| UploadProtocol.FinalNeverChanges | upload.go:397-408 | once the destination is there no later step of any thread changes it, including threads that rehydrate the session while it is being removed |
| UploadProtocol.PayloadArrives | upload.go:273-326 | if what is sent with the right length are slices of a payload, a destination that appears is the payload, whatever the order, repetition, failure and restarts |
| UploadProgress.WriteAccepted | upload.go:273-326 | whatever the other threads are doing: a `writeChunk` that holds the session of an upload under way with the mutex free, and meets no failing file call, records its chunk exactly when index and length are those of the plan and of the announcement; then chunk file and accepted chunk are its body, the index is received, the mutex is free and every other chunk as before; otherwise nothing is done |
| UploadProgress.WriteFiles | upload.go:285-323 | accepted or not, a write leaves no temporary file of its chunk behind and touches no file of another chunk nor the metadata; one with a wrong index or announcement touches nothing |
| UploadProgress.LateRefused | upload.go:276-367 | a `complete` of an upload at its destination, one whose first file calls fail, and a write to a session marked as done change nothing |
| UploadProgress.UnknownUpload | upload.go:86-155 | a request for an upload that is out of memory and without its metadata changes nothing |
| UploadProgress.CompleteExactly | upload.go:328-409 | a `complete` that holds the session with the mutex free, and meets no failing file call, publishes exactly when every chunk is accepted and no ".uploading" file is in the way, and otherwise does nothing |
| UploadProgress.RetrySucceeds | upload.go:362-395 | a `complete` that fails at any point of putting the file together removes the ".uploading" file and can be repeated: the next one publishes |
| UploadProgress.FaultsExactly | upload.go:299-323 | a failing file call frees the mutex and leaves accepted chunks, chunk files and destination as they were |
| UploadProgress.UploadArrives | upload.go:120-409 | whole runs: from a new upload, by whatever threads, in whatever order, with repetitions and with restarts between requests, once every slice of the payload has been posted one `complete` puts the payload at the destination |
| UploadProgress.Acquires | upload.go:120-155 | a thread finds the session of an upload under way, in memory or by rehydrating it from disk |
| UploadProgress.TidiesUp | upload.go:397-409 | the rename takes the ".uploading" file away, and the directory goes one file after the other |
| UploadProgress.PublishedCleans | upload.go:397-409 | after the rename the session is marked, dropped from memory, and its directory removed |
| UploadProgress.LeftoverBlocks | upload.go:350-360 | after a crash in the middle of assembling, no run of any threads ever publishes the upload |
| UploadProtocol.CompleteSucceeds | upload.go:328-409 | a `complete` that holds the session with every chunk accepted and no failing file call publishes them and goes on to clean up: neither internal check fails |
| UploadProtocol.NextKeeps | upload.go:120-155 | every step keeps the invariant: one session before publication, `received` equal to the chunk files but for one being recorded, chunk files equal to the accepted chunks, owners of the session mutex in the critical section |
| UploadProtocol.RehydrateKeeps | upload.go:120-155 | loading the session from disk, racing with other loaders, keeps the invariant |
| UploadProtocol.PublishKeeps | upload.go:397-400 | the rename to the destination keeps the invariant |
| UploadProtocol.SpooledKeeps | upload.go:299-323 | renaming a finished temporary chunk into place keeps the invariant |
| UploadManager.CountedIsComplete | upload.go:340-342 | as many received indices as there are chunks means every index |
| UploadManager.Assemble | upload.go:362-378 | the assembly loop succeeds exactly when every chunk file is there, and yields them in order |
| UploadManager.CompletableExactly | upload.go:328-392 | while the chunk files have the lengths of the plan, an upload can be completed exactly when all of them are there and neither the destination nor its temporary file is |
| UploadManager.ConcatenatedPayload | upload.go:362-378 | chunk files that are the slices of a payload are the payload, one after the other |
| UploadManager.AscendingFacts | upload.go:157-167 | the received list holds exactly the received indices below the total, increasing |
| UploadManager.UploadManager.Init | upload.go:199-270 | succeeds exactly when the size is acceptable and the destination free; then the session and its plan are on disk and usable |
| UploadManager.UploadManager.ScanReceivedDisk | upload.go:108-116 | the scan finds exactly the chunk files |
| UploadManager.UploadManager.Acquire | upload.go:120-155 | finds a session exactly when its directory is there and has not expired, from memory or disk; an expired one is removed |
| UploadManager.UploadManager.WriteChunk | upload.go:273-326 | accepts exactly a chunk of the expected length, replaces that chunk file and records it; every other chunk file stays, and so does every other upload |
| UploadManager.UploadManager.Complete | upload.go:328-409 | succeeds exactly when all chunks are counted, the destination is free and the total is right; then the destination is the chunks in order and the session is gone, otherwise nothing changed |
| UploadManager.UploadManager.Abort | upload.go:411-434 | removes the session and its directory |
| UploadManager.UploadManager.Status | upload.go:436-445 | reports the received indices in increasing order |
| Tree.MovedTreeOk | handlers.go:510-513 | a rename to a free place keeps the tree a tree with the same node identities |
| Tree.MovedKeepsFiles | handlers.go:664-667 | it loses, duplicates, creates and changes no file |
| Tree.MovedArrives | handlers.go:664-667 | the subtree arrives whole at the new place |
| Tree.MovedElsewhere | handlers.go:664-667 | everything away from both places is as it was |
| Tree.MovedBack | trash.go:146-151 | renaming back undoes the rename |
| Tree.MkdirAllFacts | trash.go:201-203 | creating missing parents succeeds exactly when no file is in the way, and adds only directories on the path |
| Copying.ListingMembers | copy.go:189-222 | the recursion visits exactly the entries reached without a dot-leading name or a link |
| Copying.ListingTopDown | copy.go:189-222 | it visits no entry twice and every entry after the directory it is in |
| Copying.ProgressTo | copy.go:224-259 | the counters shared through the recursion are the totals of the entries copied so far, as int64, and it goes on exactly while they pass the limits |
| Copying.CountsAreTotals | copy.go:256-257 | the running counters are the number and the total size of the set of files visited |
| Copying.CopyExactly | copy.go:142-151 | a copy to a free name succeeds exactly when the visible files pass the limits as the code tests them; it is then the source without dot entries and links, everything else unchanged, and otherwise the rollback leaves the tree as it was |
| Copying.LimitsHoldExactly | copy.go:242-244 | holding at most 5000 files and 4 GiB is passing the limits with a total that int64 can count: larger sources pass only where the int64 sum overflows |
| Copying.PassesBySums | copy.go:242-257 | a source of any size passes exactly when it holds at most 5000 files and every partial total in visiting order is, modulo 2^64, at most 4 GiB or above 2^63 - 1 |
| Copying.PassesIsFits | copy.go:242-257 | while no file reaches 2^63 - 2^32 bytes, passing is holding at most 5000 files and 4 GiB |
| Copying.SparsePasses | copy.go:242-244 | a folder with a one-byte file and a sparse one of 2^63 - 1 bytes passes |
| Copying.RollbackExactly | copy.go:93-97 | after a failed copy the tree is as before exactly when the target name had no entry at all, not even a link that leads nowhere |
| Copying.CopyTreeOk | copy.go:180-187 | on a tree without links the copy has fresh node identities and leaves all others |
| Copying.CandidatesDistinct | copy.go:168-178 | for every name, different numbers give different candidate names |
| Copying.CandidateExactly | copy.go:168-178 | copies are numbered before the extension: "a.txt", "a copy.txt", "a copy 2.txt" and so on, and at the end of a name without a dot |
| Copying.SomeCandidateFree | copy.go:158-166 | among more candidates than the directory has entries one is free |
| Copier.UniqueCopyName | copy.go:158-166 | returns the first of ten thousand candidates that `os.Stat` reports missing, or the clock-made name |
| Copier.UniqueNameFirst | copy.go:158-166 | the candidate returned is the first that is reported missing, and the clock-made name is for when none is |
| Copier.LoopFindsName | copy.go:158-166 | with fewer than 10000 entries some candidate is reported missing, and where no entry is a link the one returned is free |
| Copier.StatEntry | copy.go:161-163 | in a real directory `os.Stat` misses a name that has no entry and finds one that is not a link |
| Copier.Copier.CopyFile | copy.go:224-259 | checks both limits, creates the file exclusively and bumps the counters |
| Copier.Copier.CopyDir | copy.go:189-222 | the recursive method, reading the tree it is writing to, copies the listing of the source as it was at the start and leaves the counters of that listing |
| Copier.Copier.CopyPath | copy.go:180-187 | copies and, on failure, removes the target as the handlers do |
| Copier.Copier.HandleCopy | copy.go:31-104 | the handler's answer and the tree it leaves are those that HandleCopyExactly characterises |
| Copier.Copier.HandleDuplicate | copy.go:106-155 | the same for a duplicate |
| Copier.HandleCopyExactly | copy.go:31-104 | a copy succeeds exactly when source and destination are acceptable, the source passes the limits and nothing is at the chosen name, under which it is then reported; an unacceptable request changes nothing, and a failed copy removes what was at that name, which only a link that leads nowhere or the clock-made name can have been |
| Copier.HandleDuplicateExactly | copy.go:106-155 | the same beside the source, always under the first candidate reported missing |
| ArchiveServer.UniqueNonEmptyPaths | bulk.go:323-338 | each cleaned, non-empty path once |
| ArchiveServer.Server.HandleMove | handlers.go:611-671 | does to tree and share table what the specification of a move says |
| ArchiveServer.Server.HandleRename | handlers.go:475-518 | the same for a rename |
| ArchiveServer.Server.HandleDelete | handlers.go:545-591 | the same for a delete |
| ArchiveServer.Server.HandleBulkMove | bulk.go:88-160 | the loop computes the moves one after the other, with count and failures |
| ArchiveServer.Server.HandleBulkDelete | bulk.go:35-66 | the loop trashes one path after the other, with count and failures, whichever of the two saves of an iteration fail |
| ArchiveServer.Server.MoveToTrash | trash.go:100-154 | renames, records and saves; a failed save undoes rename and record |
| ArchiveServer.Server.Restore | trash.go:164-219 | recreates parents, renames back and splices the record out, or drops a record whose entry is missing |
| ArchiveServer.Server.Purge | trash.go:221-246 | removes the stored entry and its record |
| ArchiveServer.Server.Empty | trash.go:248-265 | removes every recorded entry, clears the records and then removes orphans |
| ArchiveServer.Server.PurgeExpired | trash.go:267-286 | removes exactly the stale entries and keeps the other records in order |
| ArchiveServer.Server.constructor | trash.go:41-62 | makes the trash directory and starts with the recorded items |
| ArchiveOutcomes.MoveExactly | handlers.go:611-667 | a move succeeds exactly when the source exists and is not the root, the destination is a directory outside it, and the name is free there |
| ArchiveOutcomes.RenameExactly | handlers.go:475-513 | a rename of anything but the root, however spelled, succeeds exactly when the source exists, the cleaned new name is usable and free beside it, and the directory the request spells could hold it |
| ArchiveOutcomes.PlainRenameExactly | handlers.go:475-513 | spelled plainly, it succeeds exactly when the source exists and the cleaned new name is usable and free |
| StorageRoot.RootTakenExactly | handlers.go:475-513 | with a storage root that is not the root of the file system: a rename takes the storage directory away exactly when the request cleans to the root, the cleaned new name is usable and free beside it, and the directory the request spells could hold it |
| StorageRoot.EmptyPathTakesRoot | handlers.go:475-513 | for an empty path the first three suffice, and the whole storage is then found at the sibling, with nothing left at the root |
| ArchiveOutcomes.TrashExactly | trash.go:100-154 | trashing succeeds exactly when the entry exists, is neither root nor trash, and the record is saved |
| ArchiveRequests.DeleteExactly | handlers.go:525-596 | a delete succeeds exactly when the entry is there and is neither the root nor the trash, its name was typed if it is a folder, and the record can be saved; then the subtree lies in the trash whole, one record tells where it came from, the shares at or below it are gone, and nothing else moved; otherwise nothing changes |
| ArchiveRequests.BulkDeleteTurn | bulk.go:50-66 | in its turn each path is trashed and counted exactly when it can be by then and its record saved, and is otherwise listed as failed and changes nothing |
| ArchiveRequests.BulkMoveStarts | bulk.go:76-112 | a bulk move is carried out exactly for one to five hundred paths and an existing directory |
| ArchiveRequests.BulkMoveTurn | bulk.go:113-160 | in its turn each path is moved and counted exactly when it addresses an entry that can go into the directory by then, and is otherwise listed as failed and changes nothing |
| ArchiveOutcomes.RestoreExactly | trash.go:164-219 | restoring reports success exactly when the entry is stored, its original place can be named, is free and has only directories above it, and the records are saved |
| ArchiveRequests.PurgeExactly | trash.go:221-246 | a purge removes exactly the stored entry of the id, with everything below it, and its record; it reports success exactly when there was one and the records can be saved |
| ArchiveRequests.EmptyExactly | trash.go:248-265 | emptying removes every record with its entry and, if the records can be saved, leaves nothing at all below the items directory |
| ArchiveRequests.PurgeExpiredExactly | trash.go:267-286 | the janitor removes exactly the records older than the cutoff, with their entries, and keeps the others in order |
| ArchiveRequests.MkdirExactly | handlers.go:412-459 | a folder is made exactly in an existing directory under a usable free name, and nothing else changes |
| ArchiveRequests.DirectUploadExactly | handlers.go:327-410 | a plain upload makes exactly a new file with the contents sent, in an existing directory, and never replaces one |
| ArchiveRequests.UploadExactly | upload.go:345-400 | putting an upload in place makes the file exactly where its directory is there and neither its name nor the temporary one is taken |
| ArchiveRequests.DropUploadExactly | shares.go:720-776 | a drop lands in the shared directory under the first free name, and replaces nothing |
| ArchiveRequests.UploadFoldersExactly | upload.go:201-217 | the folders of a folder upload are made exactly when only directories stand on the way, and exactly the missing ones are new |
| ArchiveRequests.CreateShareExactly | shares.go:113-213 | a share is recorded exactly when the entry is there and the options are ones a share can have; it stands for the node at that place |
| ArchiveSteps.MoveOutcome | handlers.go:598-677 | a move request does nothing, or renames one subtree to a free place and rewrites the table for it |
| ArchiveSteps.RenameOutcome | handlers.go:461-523 | the same for a rename |
| ArchiveSteps.BulkMoveStep | bulk.go:113-160 | after any number of iterations: moved plus failed is the number of paths, the destination checked before the loop is still the same directory, no file is lost |
| ArchiveRuns.BulkMoveCounts | bulk.go:113-160 | the same for the whole request, refused or answered |
| ArchiveRuns.BulkDeleteCounts | bulk.go:50-66 | moved plus failed is the number of paths, no file is lost, other trash items stay |
| ArchiveTrash.MoveToTrashOutcome | trash.go:140-153 | trashing does nothing, save failure included, or moves the entry and records it in memory and on disk |
| ArchiveTrash.RestoreOutcome | trash.go:164-219 | a restore does nothing, forgets a missing entry, finds the place taken, or puts the entry back |
| ArchiveTrash.PurgeStepOk | trash.go:230-246 | a purge removes entry and record together and touches nothing outside the trash |
| ArchiveTrash.EmptyStepOk | trash.go:248-265 | emptying touches nothing outside the trash and, once saved, leaves nothing in it |
| ArchiveTrash.PurgeExpiredStepOk | trash.go:267-286 | removes stale entries with their records and touches nothing outside the trash |
| ArchiveTheorems.ContentConserved | bulk.go:113-160 | over every run of moves, renames, bulk moves, trashing, restores, shares and restarts, with failing saves: exactly the same files with the same identity and contents |
| ArchiveTheorems.StepLosesExactly | copy.go:142-151 | one request that is no purge keeps every file, with identity and contents, exactly when it is not a copy or duplicate whose chosen name has an entry with a file at or below it |
| ArchiveTheorems.NothingLost | copy.go:142-151 | over every run without a purge and without such a copy, with uploads, new folders and all other copies, no file is ever lost, overwritten or changed |
| ArchiveCopies.CopyLosesExactly | copy.go:88-97 | for every request string and tree without links: a copy succeeds exactly when the request can be carried out, the source passes the limits and some name is free; it loses an entry exactly when the request can be carried out, all ten thousand names and the clock-made one are taken, and the entry is the one under the latter or below it |
| ArchiveCopies.DuplicateLosesExactly | copy.go:142-151 | the same of a duplicate, with the names beside the source |
| ArchiveCopies.DuplicateLoses | copy.go:142-166 | for every usable name without an extension and every clock reading past ten microseconds: in a new archive with a file of that name, its first 9999 copies and a file under the clock-made name, duplicating the first deletes the last |
| ArchiveTheorems.OnlyTrashIsPurged | trash.go:230-286 | a purge loses nothing outside the trash |
| ArchiveTheorems.RecordsMatch | trash.go:142-152 | between restarts, whatever saves fail, trash records and stored entries correspond one to one |
| ArchiveTheorems.LagsExactly | trash.go:41-62 | after any request, whatever saves fail: some record in trash_info.json has lost its entry exactly when the request did not save and either one had before or the request took a recorded entry out |
| ArchiveTheorems.RestartMatchesExactly | trash.go:41-62 | over every run with failing saves and restarts: records and entries correspond throughout exactly when no restart comes between a step that took a recorded entry out of the trash unsaved and the next save that succeeds |
| ArchiveTheorems.RecordsMatchAlways | trash.go:41-62 | while the saves of the records succeed they correspond over restarts as well |
| ArchiveTheorems.StaleAfterRestart | trash.go:206-219 | after a restore whose save failed, a restart brings back a record whose entry is gone |
| ArchiveTheorems.RestoredIdentical | trash.go:164-219 | trash an entry, let any requests happen that leave its record alone, restore it: the identical subtree is back at its original path |
| ArchiveShares.UnderIsBelow | shares.go:326-328 | the string prefix test of the table is containment of paths |
| ArchiveShares.FollowsMove | shares.go:337-358 | rewriting a share's path by prefix and renaming in the tree commute |
| ArchiveShares.OpKeepsPlaces | shares.go:240-305 | serving, counting, expiring and revoking never change where a share points |
| ArchiveFollows.SharesFollowTheirNodes | shares.go:337-358 | after any run of plainly spelled requests, no copy of which deletes an entry under a taken name, every share in the table resolves to the very node it was created for and carries its name and kind |
| ArchiveFollows.RestartFollowsLive | shares.go:364-373 | while the saves of the table succeed, after a restart every share that has not expired still is on its node, though pruning left expired records on disk |
| ArchiveFollows.NewArchiveOk | trash.go:41-62 | a new storage directory meets every invariant |
| ArchiveSpelling.StepTracksExactly | shares.go:320-358 | for every request that can happen, and a restart: the table stays in step with the tree exactly when a successful move, rename or delete of a shared node spells it, and a move its destination, plainly; every iteration of a bulk move does so; some path of a bulk delete is a prefix of each share whose node it takes away; a share created is spelled plainly; a copy displaces no shared node; and a restart finds shares.json in step |
| ArchiveSpelling.SharesFollowSpelled | shares.go:320-358 | over every run in which no request misspells a share that it reaches, and no copy deletes a shared entry, each share resolves to the very node it was created for, with its name and kind |
| ArchiveSpelling.MoveDanglesExactly | handlers.go:667-671 | after a successful move a share reaches its node exactly when the node did not move or the source was spelled plainly, whatever the spelling of the destination |
| ArchiveSpelling.MoveTracksExactly | handlers.go:667-671 | a move that reaches a shared node keeps the table in step exactly when source and destination are spelled plainly |
| ArchiveSpelling.RenameDanglesExactly | handlers.go:515-518 | after a successful rename a share reaches its node exactly when the node did not move or the request spelled the path plainly |
| ArchiveSpelling.RenameTracksExactly | handlers.go:515-518 | a rename that reaches a shared node keeps the table in step exactly when the request spells the path plainly |
| ArchiveSpelling.BulkMoveTracksExactly | bulk.go:113-160 | a bulk move keeps the table in step exactly when every iteration that moves a shared node spells it, and the destination, plainly: what one breaks no later one mends |
| ArchiveSpelling.DeleteDanglesExactly | handlers.go:577-586 | a delete leaves a dangling share exactly for the shared entries it takes away under another spelling |
| ArchiveSpelling.BulkDeleteDanglesExactly | bulk.go:50-66 | after a bulk delete a share dangles exactly when some iteration took its node away and no successful one named a prefix of its path |
| ArchiveSpelling.CreatedAside | shares.go:113-156 | a share created as "./a" reaches its node, under a path that is not plain |
| ArchiveSpelling.AsideDanglesExactly | shares.go:337-358 | for a share in any spelling and a successful move in any spelling: a record the request is no prefix of dangles exactly when its node moved; behind a prefix it reaches its node exactly when its remaining pieces, cleaned from the new place, lead to where the move took the node |
| ArchiveSpelling.AsideWithoutClimb | shares.go:337-358 | for a share such as "./a", "a//b" or "a/./b", without "..": it reaches its node after a move exactly when that did not move or the request is a prefix of the record |
| ArchiveSpelling.ClimbingAside | shares.go:337-358 | in an archive where "d" is shared as "a/../d", moving "a" into "d" leaves that share dangling though its node did not move |
| ArchiveSpelling.RenamedAside | handlers.go:515-518 | in an archive with a share of "a", renaming "./a" succeeds and leaves the share dangling |
| ArchiveSpelling.MovedAside | handlers.go:667-671 | so does moving "./a" |
| Sessions.RestartYields | session.go:62-126 | in every interleaving of any number of callers with crashes anywhere: a restart yields every session whose creation returned, that nobody asked to remove and that has not expired, none whose removal returned, and all as they were created |
| SessionCalls.CallExactly | session.go:135-231 | `create` adds its session and nothing else; `destroy` removes the session of that id, expired or not; `destroyByUsername` every session of the name up to case; `reap` exactly the expired ones; a call goes on to persist exactly when it changed the table |
| SessionCalls.RestartExactly | session.go:62-96 | a restart has in memory exactly what the file holds with id, name and role and unexpired |
| SessionCalls.PersistReturns | session.go:100-126 | a call that finds the mutex of `persist` free and is let run writes the table as it is then, without what has expired, and returns |
| SessionCalls.RemovalReturns | session.go:135-231 | after a sign-out, a change of password or a reaping, in every later state without a crash in between: either the call is still in `persist`, or every session it was asked to remove is gone for good |
| SessionCalls.GoneForGood | session.go:62-126 | once a removal has returned, the session is in no later table and no later file, whatever happens, crashes included |
| SessionCalls.CreationReturns | session.go:166-180 | after a sign-in, either the call is still in `persist` or the session counts as created |
| Sessions.GoKeeps | session.go:100-126 | each step of `persist` keeps the invariant: whoever writes holds the mutex and a snapshot with every finished call in it |
| Sessions.BeginKeeps | session.go:166-231 | each mutation under `mu` keeps it while other threads are anywhere in `persist` |
| Sessions.CrashKeeps | session.go:62-96 | so does a crash followed by `load` |
| SessionManager.Manager.constructor | session.go:48-60 | a new manager has loaded the file |
| SessionManager.Manager.Load | session.go:62-96 | loads exactly the complete, unexpired entries |
| SessionManager.Manager.Persist | session.go:100-126 | the file is the unexpired part of the table |
| SessionManager.Manager.Create | session.go:166-180 | adds the session with its expiry and persists |
| SessionManager.Manager.Get | session.go:182-199 | returns an unexpired session; an expired one is destroyed |
| SessionManager.Manager.DestroyOne | session.go:201-211 | the session is in neither table nor file afterwards, every other one stays, and it persists only if there was one |
| SessionManager.Manager.DestroyByUsername | session.go:214-231 | removes exactly the user's sessions, up to case, persisting only if there were any |
| SessionManager.Manager.ReapAll | session.go:135-164 | drops exactly the sessions past their expiry and the stale failure entries |
| SessionManager.Manager.AllowLogin | session.go:271-282 | decides and updates the entry of one address, no other |
| SessionManager.Manager.RecordFailure | session.go:284-295 | counts a failure and locks at the fifth |
| SessionManager.Manager.ClearFailures | session.go:297-301 | forgets one address |
| LoginLimiter.FiveFailuresPerMinute | session.go:271-295 | whatever the reaper does, any window shorter than a minute holds at most five failures, unless an attempt asks at the very instant a lock ends |
| LoginLimiter.RefusedExactly | session.go:271-295 | after a failure of a client that is not locked, with the reaper coming by or not, the next attempt is refused exactly when that was the fifth counted one and less than a minute has passed |
| LoginLimiter.ReapedExactly | session.go:144-160 | the reaper forgets exactly the entries whose last failure is over a minute old and whose lock has ended |
| LoginLimiter.OnTheDotExactly | session.go:275-280 | for a locked client, asking can break the limit exactly when both clock readings are the instant the lock ends |
| LoginLimiter.SixInAMoment | session.go:275-280 | in that case six failures are recorded within a nanosecond |
| Accounts.RolesAgree | totp.go:209-231 | from installation on, over every run of requests: each session names the existing user of that name with that user's current role, an admin remains, names are unique up to case, only admins have second-factor data |
| AccountOutcomes.LoginExactly | totp.go:158-186 | the first step of a login does something exactly for an existing name and the right password: a waiting login and no session for an admin with the second factor on, a session with the registered name and current role for everybody else |
| AccountOutcomes.LoginTotpExactly | totp.go:188-244 | the second step opens a session exactly for a token that still waits and a right code, for the account and role that it waits for; the token is used up either way |
| AccountOutcomes.VerifyExactly | totp.go:138-154 | a code is accepted exactly when the account is an admin with the second factor on and the code is one the authenticator accepts or an unused recovery code of at least twelve characters; only an accepted recovery code changes anything, and only its own hash |
| AccountOutcomes.TotpDisableExactly | totp.go:344-376 | the second factor is turned off exactly by an admin's own session with the right password and, where it is on, a right code |
| AccountOutcomes.NotAdmin | totp.go:264-376 | without the session of an admin no set-up is begun or confirmed and nothing turned off |
| AccountOutcomes.TotpConfirmExactly | totp.go:297-342 | a set-up is confirmed exactly by a valid code while it waits, with the secret it was begun with |
| AccountOutcomes.AdminRequestsExactly | users_admin.go:43-118 | a change of password or role and a deletion sign the account out everywhere exactly when they succeed |
| AccountOutcomes.SignOutExactly | session.go:201-211 | signing out removes that session, and reaping the expired ones |
| AccountOutcomes.SetRoleExactly | users.go:186-221 | a role is changed exactly when it is a known one, somebody has the name, and the last admin does not lose it; an account that is no admin any more loses its second factor; no other account changes |
| AccountOutcomes.DeleteUserExactly | users.go:223-250 | an account is deleted exactly when it is not the last admin, and the others stay in order |
| AccountOutcomes.AddUserExactly | users.go:73-98 | an account is added exactly when trimmed name, password and role will do and nobody has the name up to case |
| Accounts.VerifyKeeps | totp.go:138-154 | a code is accepted only for an account that is an admin now, whatever a pending login remembered |
| Accounts.SetRoleKeeps | users.go:186-221 | changing a role and dropping the user's sessions keeps sessions and roles in agreement |
| Accounts.DeleteUserKeeps | users.go:223-250 | so does deleting a user, and an admin remains |
| Accounts.AddUserKeeps | users.go:73-98 | adding a user keeps names unique up to case |
| Accounts.RecoveryCodeWorksOnce | users.go:312-330 | a recovery code is accepted exactly when its hash is listed, and then never again, while every other one still is |
| UserStore.Store.AddUser | users.go:73-98 | appends exactly when name, password and role are acceptable and the name is new up to case |
| UserStore.Store.SetPassword | users.go:163-184 | replaces one password hash |
| UserStore.Store.SetRole | users.go:186-221 | changes one role, refusing to demote the last admin, and clears second-factor data of a viewer |
| UserStore.Store.DeleteUser | users.go:223-250 | removes one user, refusing the last admin |
| UserStore.Store.AdminCount | users.go:151-161 | counts the admins |
| UserStore.Store.TotpSecret | users.go:263-276 | yields the secret exactly for an admin with the second factor on |
| UserStore.Store.EnableTotp | users.go:278-294 | sets the second factor of an admin only |
| UserStore.Store.DisableTotp | users.go:296-309 | clears it |
| UserStore.Store.ConsumeRecoveryCode | users.go:312-330 | splices the first matching hash out |
| UserStore.Store.VerifyTotpOrRecovery | totp.go:138-154 | accepts a valid code, or a recovery code of at least twelve characters, for an active account |
| UserStore.PendingTotp.PutLogin | totp.go:54-73 | drops expired entries and adds the token |
| UserStore.PendingTotp.TakeLogin | totp.go:75-87 | a token works once and only before it expires |
| UserStore.PendingTotp.TakeSetup | totp.go:98-111 | a set-up is taken once and only before it expires |
| ListingCache.HitExactly | cache.go:44-87 | after any run of operations, said of the operations alone: a lookup hits exactly when the key was set since the last invalidation and fewer than `max` distinct other keys were touched since its last touch; it yields the listing last set; map and list agree and never exceed the cap |
| ListingCache.LargerHoldsMore | cache.go:58-80 | on the same run a larger cache holds every key a smaller one holds |
| ListingCache.TakeTouch | cache.go:70-79 | what lies beyond the cap never matters to what is kept |
| CacheStore.Cache.Get | cache.go:44-56 | hits exactly the held keys, moves the item to the front, and returns its listing: one step of the operations HitExactly speaks of |
| CacheStore.Cache.Set | cache.go:58-80 | puts the listing in front and evicts the least recently used beyond the cap |
| CacheStore.Cache.Evict | cache.go:73-78 | removes the last item from list and map |
| CacheStore.Cache.Invalidate | cache.go:82-87 | empties map and list |
| CacheStore.Cache.constructor | cache.go:29-38 | an empty cache, with the default cap for a cap below one |
| Search.SearchInTree | search.go:47-81 | from any coherent cache and under any evictions, if the search ends it returns the first `limit` matches in level order, with `limited` exactly when there are as many; the paths are the very ones that fresh listings give where keys are plain, and lead to the same places otherwise |
| Search.SearchEndsExactly | search.go:51-79 | the loop ends exactly when some number of levels is all there is or holds enough matches |
| Search.GoesOn | search.go:51-79 | otherwise, however often it has iterated, with listings from disk or any coherent cache, directories are left and matches are lacking |
| Search.QueueIsLevels | search.go:51-79 | the queue meets the nodes level by level, whether it ever runs empty or not |
| SearchMatches.SearchFindsExactly | search.go:47-81 | where no name holds a backslash, the matches of a search that reads everything are exactly the visible entries in whose lower-cased name the needle occurs, each with its own name, path, kind and size |
| SearchMatches.HitInPlace | search.go:62-76 | a matching entry is reported once, after one hit for each matching entry before it |
| SearchMatches.MatchesExactly | search.go:62-66 | an entry matches exactly when the needle is a stretch of its lower-cased name |
| SearchEnds.EndsExactly | search.go:51-79 | for every tree, links included: the directories run out exactly when only finitely many places lead on and none leads back to itself |
| SearchEnds.LinkFreeEnds | search.go:51-79 | on a tree without links: exactly when no directory that the names lead to from the root leads back to itself |
| SearchEnds.LeadsExactly | path.go:70-84 | on such a tree a directory leads to where the pieces of its directories' names lead, backslashes being separators |
| SearchEnds.DescendingEnds | search.go:51-79 | where every directory's name leads strictly down, as "a\b" does, the search ends |
| SearchEnds.PlainEnds | search.go:51-79 | without backslashes in names it ends, links or not |
| SearchEnds.ReturningLoops | search.go:51-79 | wherever a visible directory holds one whose name leads back to it, as "\" and "x\.." do, the queue never runs empty |
| SearchEnds.UnmatchedEnds | search.go:51-79 | a search that matches nothing ends exactly when the directories run out |
| SearchEnds.ConcreteLoops | search.go:51-79 | with one directory named "\", or "x\..", in an otherwise empty storage, searching for "q" never ends |
| SearchVisible.SearchSeesVisible | search.go:47-81 | where no name holds a backslash, the levels hold every visible entry exactly once, with its own name, path, kind and size, and nothing else |
| SearchVisible.SeenExactly | handlers.go:145-153 | on a tree without links the visible entries are those that no dot-leading name hides |
| Listings.ReadNodes | handlers.go:145-166 | the loop yields the nodes of the shown entries in directory order |
| Listings.ListDirNodes | handlers.go:123-170 | from a coherent cache, by hit or by miss, the listing of the directory or its error, leaving the cache coherent |
| Listings.ListedExactly | handlers.go:123-170 | a node is listed exactly when it describes an entry of the directory the request leads to, with the kind and size the file system gives, one without a leading dot whose own path is not refused |
| Listings.ListDirAlike | handlers.go:123-170 | another spelling of a directory lists the same nodes in the same order, up to the spelling of their paths |
| Listings.KeySpellsExactly | cache.go:40-42 | the listing stored under the cache key is spelled as the request's own exactly when no backslash is trimmed off for the key, or nothing is listed |
| SearchEnds.EdgesPlain | cache.go:40-42 | where no name starts or ends with a backslash the keys are plain, so that the search yields the very paths whatever the cache holds |
| SearchEnds.TrailingBackslash | cache.go:40-42 | beside a directory "a", one named "a\" is searched under the listing of "a" or of itself, as the cache has it |
| AtomicWrite.AlwaysComplete | atomic.go:11-49 | over every run of writes with failures and crashes anywhere, the target holds the initial contents or the complete data of one write |
| AtomicWrite.CrashLeavesOldOrNew | atomic.go:11-49 | a crash at any step of a write, with any surviving directory state and any damage to unsynced data, leaves the complete old or the complete new contents |
| AtomicWrite.StepKeeps | atomic.go:29-47 | each file call keeps every directory state that may come back complete, and the file being written out of all of them |
| AtomicWrite.OpenExactly | atomic.go:18-21 | opening empties the temporary file that an earlier write left behind, or makes a new one, and leaves the target alone |
| AtomicWrite.WriteArrives | atomic.go:11-49 | a write in which no call fails ends with the new contents and nothing else that a crash could bring back |
| AtomicWrite.SyncNeeded | atomic.go:33-35 | without the sync of the file before the rename a crash could leave anything in the target |
| AtomicWrite.DirectorySyncExactly | atomic.go:44-47 | what a crash after the rename may bring back: exactly the new version if the directory could be synced, and otherwise exactly the versions since its last sync |
| AtomicWrite.Disk.WriteFileAtomic | atomic.go:11-49 | the sequence of calls replaces the contents exactly when none fails, removes the temporary file when one does, and settles the directory when its sync works |

## Left out

- HTTP routing, JSON, templates, cookies, CSRF, compression, logging, TLS and shutdown: plumbing around the modelled calls.
- Cryptography: password hashing, code validation and random tokens are inputs; tokens are assumed fresh, recovery hashes of one account distinct.
- WebDAV, proxy headers, client addresses, disk usage and storage set-up: library wrappers or configuration.
- ZIP streaming: it checks only `withinRoot`, and nothing is claimed about hidden entries or share folders for it.
- Upload expiry, `abort` and `reapExpired` running against other upload threads: `abort` drops the map entry before it takes the session's mutex, so the protocol theorems assume none of them; one at a time they are in UploadManager.
- Two uploads completing to one name at once: `stat` and `rename` are separate calls, so no-overwrite is claimed for atomic requests.
- Cache coherence across tree mutations: a fill can land after an invalidation and folder uploads create directories without one, so search is proved against a coherent cache.
- Symbolic links in the archive runs: they are modelled in the resolver, in copying and in the search, while the runs of requests are over trees without links.
- Interleaving of tree requests with each other: each is one atomic step, as is each drop upload's file creation.
- `listPublic` of the share store and of the users: listings without further effect.
- Unicode: names compare by code point and fold case on ASCII letters only; a file name is a sequence of characters, not of bytes.
- The `container/list` element pointers of the cache: the recency list is a sequence of the items the map holds.
- Partial writes inside `copyFile` and other I/O errors in copying: file calls fail only for the reasons the tree gives.
- LoginLimiter.FiveFailuresPerMinute: one client with one attempt in flight and no successful password in between.
- Accounts.RolesAgree: saves succeed; when saving a role change fails the handler does not drop the user's sessions.
- Directory syncs, fsync and rename in AtomicWrite follow one journaling model: directory states come back as whole states since the last sync.
- The storage root's rename within runs: `Archive.RenameSpec` and the runs exclude the request, because the archive model has nothing above the root; StorageRoot says what it does and when.
- ArchiveTheorems.ContentConserved: over runs in which the storage root is not renamed, as is NothingLost.
- ArchiveFollows.SharesFollowTheirNodes: for plainly spelled requests; SharesFollowSpelled in ArchiveSpelling covers all that do not misspell a share they reach, and StepTracksExactly says that the others break it.
- ArchiveServer.Server.HandleRename: takes requests that do not name the storage root; StorageRoot says what the others do.
- ArchiveSteps.RenameOutcome: the same.
- ArchiveCopies.DuplicateLosesExactly: a duplicate of the storage root itself, asked for as ".", would go beside the storage directory, outside the archive model; there it counts as refused.
- Shares.NewShare: the password and its strength check, and the trimming and lower-casing of the kind, are taken as done.
- UploadManager.UploadManager.Init: takes the name and the destination as accepted; the name's checks are in UploadNames, the folders it creates in `Archive.UploadFoldersSpec`.
- Search on trees with links: EndsExactly speaks of the places that listings lead to; only without links is that said by the names in the tree.
