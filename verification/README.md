# Filegate: verified models of its hard parts

Filegate is a file gateway written in Go: a service over a metadata index, an HTTP upload API and an
S3-compatible adapter. This project models the parts of it whose correctness does not show in any one
function, and proves what they promise for every input, every interleaving or every run.

| files | what they model |
|---|---|
| `PathLocks`, `PathLockRuns` | the hierarchical path-lock manager, and all runs of threads that use it |
| `ObjectKeys`, `Listing` | accepted object keys, one page of ListObjectsV2, and following continuation tokens to the end |
| `PartLists`, `Multipart` | the part list of a Complete, and one S3 multipart upload: parts, complete, abort, crash, recovery and retention sweep |
| `CacheKeys`, `TreeIndex`, `TreeEdits`, `TreeCaches`, `TreeService` | the metadata tree with its two path caches under lookup, create, rename, move and delete |
| `MoveGuard` | the check a transfer makes before it moves a directory |
| `RootResolution`, `ChildPages` | the memoised root lookup on any parent graph, and paged reading of all children |
| `Pruner` | version retention by buckets |
| `UploadLocks` | the reference-counted lock per upload id |
| `UploadSessions`, `Segments` | the commit protocol of an upload session, its segment plan and assembly |
| `ChunkedDecoder`, `ChunkedFraming`, `ChunkedEncoding`, `ChunkedTruncation` | signed chunked request bodies: what is accepted and refused, whole streams and cut ones |
| `UriEncoding`, `CanonicalQuery` | percent-encoding and the SigV4 canonical query string |
| `IfMatch`, `ConditionalWrites` | the If-Match header, and conditional puts and deletes on one key |
| `TokenBucket` | the request rate limiter |
| `ByteStrings`, `Sequences`, `GoArithmetic`, `Wrappers` | byte order, split and join, stable sorting, Go's division, options |

`dafny verify dfyconfig.toml` checks everything. Code that updates fields or variables is modelled by
classes and loops proved against specification functions; code whose difficulty is interleaving is modelled
as a state machine whose steps are the code's atomic sections or durable writes, with a theorem over runs of
any length. Strings are byte sequences. The clock, hashes, signatures, the filesystem and the index store
appear as parameters or as maps.

## What turned out not to hold

Where a promise fails, the model follows the code, a lemma exhibits the failure and another states exactly
when the promise holds.

- Two threads taking subtree-lock pairs can block each other for good. This happens exactly for a pair whose
  second key extends the first by a byte that sorts below `/` (`PathLockRuns.DeadlockIffHazard`).
- A retention sweep that decided to force-abort an upload just before a Complete arrived can delete the commit
  record while the row still says committing, and a retry commits again (`Multipart.OverlapCanCommitTwice`).
  No other step of the protocol can lead there (`Multipart.CommitsAtMostOnce`).
- A part upload that dies between replacing the part file and recording its digest leaves a part that is
  committed under a digest not its own (`Multipart.TornPartIsReached`). Without such a part every commit
  matches its ETag (`Multipart.CommittedContentMatchesETag`).
- A replace that puts the upload's content in place and then reports an error sends the session back to
  in-progress. A session created with overwrite then installs again on a retry
  (`UploadSessions.RetryCanInstallTwice`); one created without, the default, is refused as long as the file stays
  (`UploadSessions.LateFailureIsRefused`) and installs once however often it fails
  (`UploadSessions.WithoutOverwriteInstallsOnce`). The number of installs is exactly one for the settled replace
  plus one for each such failure (`UploadSessions.InstallsAreCounted`).
- A put that has changed the file and then fails leaves its content under the old ETag, and a second put that
  compares against that ETag commits over it (`ConditionalWrites.LostUpdate`), or it leaves no ETag at all. The
  ETag is the digest of the content exactly when no operation has failed late since the last commit, or the
  failures since left content with the very same digest (`ConditionalWrites.ETagIsDigestIff`).
- The check before a directory move lets two kinds of move into the directory's own subtree through: into the
  directory itself, and below a first name that begins with two dots (`MoveGuard.AdmitsIff`, with
  `MoveGuard.MoveIntoItselfPasses` and `MoveGuard.MoveBelowDotsPasses`). Re-parenting after an admitted move would
  keep the index a tree exactly when it is neither (`MoveGuard.AdmittedMoveKeepsTreeIff`); it is the filesystem that
  refuses those moves before the index is touched.
- Cache invalidation normalises the path: once in a move, twice in a rename, a delete and an invalidation by id. A
  path is its own key exactly when it has no backslash and does not end in white space
  (`CacheKeys.VirtualPathIsItsKeyIff`), and twice when it also does not begin with white space
  (`CacheKeys.NormalizedTwiceIff`). It is covered by its key exactly when the cleaned segments of the turned text are
  its own first names (`CacheKeys.CoversOnceIff`, `CacheKeys.CoversTwiceIff`); without backslashes this is a condition
  on its last names (`CacheKeys.SettlesOnceIff`, `CacheKeys.SettlesTwiceIff`). Files are missed for a trailing space
  (`CacheKeys.TrailingSpaceEscapesInvalidation`), for a backslash (`CacheKeys.BackslashEscapesInvalidation`) and by the
  second pass alone (`CacheKeys.SecondPassMisses`). Whatever may be cached, a move or delete leaves the caches sound
  exactly when the key drops every pair of the subtree (`TreeService.MoveNeedsClearing`,
  `TreeService.DeleteNeedsClearing`).
- A chunked body that is cut off can read as a clean end of stream. `ChunkedTruncation.CutStream` lists the cut
  positions of an honest stream at which it does, and `ChunkedEncoding.EofIffCompleteOrCut` covers any input.
- The segment plan is computed in 64 bits and allocated up front. It tiles the upload exactly when the
  rounding-up sum fits and the number of segments can be allocated (`Segments.PlanTilesIff`); both ways to fail
  are in `Segments.PlanFails`.
- A header with an empty list element is satisfied by an object without a known ETag
  (`IfMatch.UnknownETagMatchesIff`).

## Model

| member | source | states |
|---|---|---|
| PathLocks.ConflictByAncestry | domain/path_lock.go:322-327 | two locks protect a common path if and only if their keys are equal or one is a subtree lock on an ancestor of the other |
| PathLocks.LockKeyKeepsAncestry | domain/path_lock.go:67-75 | keys built from mounts and relative paths are related exactly as the paths are, and never across mounts |
| PathLocks.AdmitsIsConflictFree | domain/path_lock.go:148-193 | as long as no lock is held on the empty key, a request is admitted if and only if it conflicts with no held lock |
| PathLocks.EmptyKeyEscapesTheTest | domain/path_lock.go:148-163 | a subtree lock held on the empty key is not seen from below, so the exclusion above is needed |
| PathLocks.ParentKey | domain/path_lock.go:237-243 | the result is the longest proper ancestor of the key |
| PathLocks.DropUndoesTake | domain/path_lock.go:195-235 | releasing a lock just taken restores the holder table |
| PathLocks.PathLockManager.AncestorSubtreeHeld | domain/path_lock.go:152-161 | the upward walk finds a subtree lock if and only if one is held on a non-empty ancestor |
| PathLocks.PathLockManager.DescendantHeld | domain/path_lock.go:180-192 | the prefix scan finds a holder if and only if a proper descendant is held |
| PathLocks.PathLockManager.CanAcquirePoint | domain/path_lock.go:148-163 | the string tests decide admission of a point lock |
| PathLocks.PathLockManager.CanAcquireSubtree | domain/path_lock.go:165-193 | the string tests decide admission of a subtree lock |
| PathLocks.PathLockManager.TryAcquire | domain/path_lock.go:77-105 | a lock is counted in exactly when it is admitted, and otherwise nothing changes |
| PathLocks.PathLockManager.Release | domain/path_lock.go:195-224 | a lock is counted out, and a table entry without holders disappears |
| PathLockRuns.MountKeysNonEmpty | domain/path_lock.go:67-75 | keys built from a mount name are never the empty key that the tests overlook |
| PathLockRuns.AdmittedIffNoConflictingHolder | domain/path_lock.go:148-193 | in every reachable state a lock is admitted if and only if no thread holds a conflicting one |
| PathLockRuns.RunsAreExclusive | domain/path_lock.go:77-224 | in every state of every run the held locks are pairwise compatible and the table counts exactly them |
| PathLockRuns.PlanProtects | domain/path_lock.go:77-146 | for every kind of request the locks it takes protect a path if and only if the request asks for it: the point, the subtree, or either of two |
| PathLockRuns.AcquireTakesThePlan | domain/path_lock.go:107-146 | each acquisition takes the next lock of the request's plan, so a thread with nothing left to take holds all of it |
| PathLockRuns.RequestsAreExclusive | domain/path_lock.go:77-224 | in every run no path is asked for by two threads that have all their locks |
| PathLockRuns.QuiescentManagerIsEmpty | domain/path_lock.go:195-224 | when no request is in progress the table is empty |
| PathLockRuns.WiderLockCoversBoth | domain/path_lock.go:128-146 | the single lock taken for an overlapping pair excludes exactly what either path's subtree lock would |
| PathLockRuns.NoDeadlock | domain/path_lock.go:107-146 | no set of threads whose requests are free of the hazard waits within itself, whatever its size; point pairs are never hazards |
| PathLockRuns.HighBytesAreSafe | domain/path_lock.go:107-146 | requests whose key bytes all sort at or above the slash are free of the hazard |
| PathLockRuns.SomeThreadCanMove | domain/path_lock.go:77-146 | while hazard-free requests are in progress some thread can take or give back a lock |
| PathLockRuns.DeadlockIffHazard | domain/path_lock.go:128-146 | a request can take part in a deadlock with otherwise safe requests if and only if it is a hazard |
| ObjectKeys.ValidUtf8Iff | adapter/s3/object.go:352-380 | a key passes the UTF-8 check if and only if it is the encoding of some scalar values (section 3 of RFC 3629) |
| ObjectKeys.ValidObjectKeyIff | adapter/s3/object.go:352-384 | a key is accepted if and only if it is at most 1024 bytes of UTF-8 without NUL and joins non-empty segments of which none is an internal name |
| Listing.GroupIff | adapter/s3/list.go:263-278 | a key rolls up into exactly the text up to the end of the first delimiter behind the prefix, and into nothing if and only if there is none |
| Listing.ClassifyIff | adapter/s3/list.go:110-200 | an entry is listed under its own key if and only if it is a file with a valid key, the prefix and no delimiter behind it, and rolled up if and only if its key is valid and has one |
| Listing.GroupClaimsItsKeys | adapter/s3/list.go:263-278 | every key below a common prefix rolls up into that same common prefix |
| Listing.RowsAreCoherent | adapter/s3/list.go:110-200 | classified index rows ascend and each group claims exactly the rows below it |
| Listing.ListPage | adapter/s3/list.go:86-254 | a page is within max-keys, lists the next objects and groups in order without loss or repetition, is truncated and has a token exactly when something remains, and its cursor resumes there |
| Listing.FollowTokens | adapter/s3/list.go:36-254 | following tokens terminates, and the pages together list, once each and in order, exactly the valid file keys of the index with the prefix and no delimiter behind it, and exactly the groups of the others |
| Listing.PagesHideInternalNames | adapter/s3/list.go:110-200 | no page shows an internal name, neither as a segment of a key nor as a slash-closed segment of a common prefix |
| Listing.NextCursorIgnoresEncoding | adapter/s3/list.go:299-323 | the next cursor is the same with and without URL encoding of the keys |
| PartLists.ValidateParts | adapter/s3/multipart_complete.go:241-282 | the check passes exactly the lists with ascending numbers in range, each an uploaded part under its digest and each but the last of at least 5 MiB; otherwise it reports the fault of the first bad line, or a small part if there is none |
| PartLists.EqualFoldIff | adapter/s3/multipart_complete.go:263 | digests are compared up to the case of letters and nothing else |
| PartLists.QuotedTagIsParsed | adapter/s3/multipart_complete.go:262 | a digest may be listed bare or in quotes |
| Multipart.CommitsAtMostOnce | adapter/s3/multipart_complete.go:51-229 | over every run without a forgetting sweep there is at most one commit, every reported ETag is that commit's, and a record leaves the row absent, committing or done |
| Multipart.StepKeepsInv | domain/service_s3_multipart.go:110-306 | every handler, crash, recovery and sweep step keeps the protocol invariant |
| Multipart.ApartCommitsAtMostOnce | adapter/s3/multipart_cleanup.go:197-276 | when sweeps do not overlap a Complete, an upload never commits twice |
| Multipart.ForgettingRepeatsTheCommit | adapter/s3/multipart_cleanup.go:253-276 | from any state in which a sweep forgets a commit, a crash and a retry with any list that can be completed commit a second time |
| Multipart.OverlapCanCommitTwice | adapter/s3/multipart_cleanup.go:197-276 | a run of the protocol with two commits |
| Multipart.PartIsRecorded | adapter/s3/multipart.go:109-208 | an upload-part stages its bytes and records their digest and size under its number, and changes no other part |
| Multipart.CompleteSucceeds | adapter/s3/multipart_complete.go:51-229 | from any open upload without a record, completing any accepted list commits exactly the listed parts in order, marks the row done, keeps a record and replies with the commit's ETag |
| Multipart.RetryCommits | adapter/s3/multipart_complete.go:51-160 | the same up to the commit batch, continuing any run |
| Multipart.RetryReplies | adapter/s3/multipart_complete.go:66-76 | a Complete that finds the record repeats its ETag and changes nothing |
| Multipart.InstallCommitsIff | domain/service_s3_multipart.go:110-306 | a handler ready to install commits if and only if there is no record yet |
| Multipart.CommitsWhatWasListed | adapter/s3/multipart_complete.go:241-343 | over every run each commit is the list of some Complete: its parts complete and in the client's order, as recorded and staged when they were assembled, under ascending numbers and the digests the client named |
| Multipart.RecoveryClosesTheUpload | adapter/s3/multipart_recover.go:32-104 | startup recovery turns a committing row with a record into a done row with that commit's ETag and time, and leaves every other row alone |
| Multipart.AbortRemovesTheUpload | adapter/s3/multipart.go:210-238 | an abort removes the row, its parts and files, and keeps a commit record |
| Multipart.AbortIsFinal | adapter/s3/multipart.go:210-238 | once the row is gone no run commits anything, and a Complete can only repeat a recorded ETag |
| Multipart.SweepBeginsIff | adapter/s3/multipart_cleanup.go:197-225 | a sweep takes up a row if and only if it has been done, or in progress, for the retention time; a committing row never |
| Multipart.RecordIsRetained | adapter/s3/multipart_cleanup.go:197-276 | a done upload keeps its record through every run whose sweeps come before its retention is over |
| Multipart.RecordIsRetired | adapter/s3/multipart_cleanup.go:253-276 | once it is over a sweep can take record and row |
| Multipart.CommittedContentMatchesETag | adapter/s3/multipart_complete.go:293-343 | over every run without a torn part, each commit installs the bytes whose digests form its ETag |
| Multipart.TornPartIsReached | adapter/s3/multipart.go:153-208 | a run from the start that commits bytes which do not match the ETag |
| Multipart.TornPartSpoilsTheCommit | adapter/s3/multipart.go:153-208 | from any open state with a torn part, some run commits bytes that do not match the ETag |
| CacheKeys.PrefixTestIsSubtree | domain/service.go:3769-3790 | "equal or continuing after a slash" is exactly the subtree relation between paths |
| CacheKeys.CleanSpellsTheWalk | domain/service.go:3739-3751 | cleaning a path spells where it leads: so many levels up, then the names down, in the shortest way |
| CacheKeys.VirtualPathIsItsKeyIff | domain/service.go:3739-3751 | a virtual path is its own cache key if and only if it has no backslash and does not end in white space |
| CacheKeys.NormalizedTwiceIff | domain/service.go:3769-3808 | normalising twice, as the callers with a normalised key do, keeps a path if and only if it also does not begin with white space |
| CacheKeys.KeyBySegments | domain/service.go:3739-3751 | for every text the key is the cleaned segments of the trimmed text with its backslashes turned |
| CacheKeys.CoversOnceIff | domain/service.go:2380-2431 | invalidating a path normalised once, as a move does, drops its subtree if and only if the cleaned segments of the turned text are the path's own first names |
| CacheKeys.CoversTwiceIff | domain/service.go:3792-3808 | invalidating a path normalised twice drops its subtree if and only if what the second trimming and cleaning leaves are the path's own first names, white space before the mount name included |
| CacheKeys.BackslashCoveredFromAbove | domain/service.go:3739-3790 | a path with a backslash in some name is covered if and only if it is covered from above that name |
| CacheKeys.SettlesOnceIff | domain/service.go:3739-3751 | without backslashes one normalisation covers a path if and only if its last name has no white space at the end, or nothing but white space or a dot segment in front of it |
| CacheKeys.SettlesTwiceIff | domain/service.go:3769-3808 | without backslashes and white space before the mount, two normalisations cover a path if and only if its last name settles and so does the last name of what is left |
| CacheKeys.SecondPassMisses | domain/service.go:3769-3808 | directories that one normalisation covers and two do not |
| CacheKeys.TrailingSpaceEscapesInvalidation | domain/service.go:3739-3790 | every directory name with one trailing space is invalidated under a key that covers none of its files |
| CacheKeys.BackslashEscapesInvalidation | domain/service.go:3739-3790 | every directory name made of two plain names with a backslash between them is invalidated under a key that covers none of its files |
| TreeIndex.ResolveInvertsPath | domain/service.go:353-369 | the downward walk by names finds an entity if and only if the upward walk from it spells those names |
| TreeIndex.SubtreeStep | domain/service.go:3135-3158 | an entity other than the root is in a subtree if and only if its parent is |
| TreeIndex.CreateKeepsTree | domain/service.go:2768-2782 | creating a node keeps the tree and every path, and gives the node its parent's path plus its name |
| TreeEdits.MoveKeepsTreeIffOutside | domain/service.go:2380-2425 | re-parenting keeps the index a tree if and only if the new parent is outside the moved subtree |
| TreeEdits.MoveChangesOnePlace | domain/service.go:2380-2425 | a move changes the place of one node and nothing else: its kind stays, its old slot is empty, its new slot leads to it |
| MoveGuard.RejectsIff | domain/service.go:2293-2298 | the relative-path test rejects a new parent if and only if it is strictly below the source and not reached through a first name that begins with two dots |
| MoveGuard.AdmitsIff | domain/service.go:2293-2298 | a directory move is let through if and only if the new parent is outside the subtree, is the directory itself, or lies below such a name |
| MoveGuard.AdmittedMoveKeepsTreeIff | domain/service.go:2293-2298 | re-parenting after a move that is let through would keep the index a tree if and only if the move goes neither into the node itself nor below such a name |
| MoveGuard.MoveIntoItselfPasses | domain/service.go:2293-2298 | a tree in which a move of a directory into itself is let through and would cut it off if re-parented |
| MoveGuard.MoveBelowDotsPasses | domain/service.go:2293-2298 | a tree in which a move below a name beginning with two dots is let through and would cut the directory off if re-parented |
| TreeEdits.InsidePathMoved | domain/service.go:2380-2425 | a move replaces the old prefix by the new one in every path of the subtree |
| TreeEdits.OutsidePathKept | domain/service.go:2380-2425 | a move changes no path outside the subtree |
| TreeEdits.DeleteKeepsTree | domain/service.go:3167-3181 | removing a subtree keeps the tree, and every other entity with its path |
| TreeCaches.CachedKeyResolves | domain/service.go:346-350 | a sound path-to-id pair is what the uncached downward walk returns |
| TreeCaches.CachedValueIsPath | domain/service.go:451-454 | a sound id-to-path pair is what the uncached upward walk spells |
| TreeCaches.InvalidationClearsStale | domain/service.go:3769-3790 | dropping everything under a key from both caches leaves only current pairs if the others are dropped with that key |
| TreeCaches.InvalidationSuffices | domain/service.go:3769-3790 | after an edit that changes every path of a subtree, invalidating a key keeps whatever may be cached sound if and only if it drops every pair of the subtree |
| TreeCaches.PlainRootClears | domain/service.go:3769-3790 | a plain path drops every pair of its subtree when the descendants are keyed below it |
| TreeCaches.PlainSubtreeClears | domain/service.go:3769-3790 | in particular when every path of the subtree is plain |
| TreeService.Service.constructor | domain/service.go:276-305 | a new service has its mounts as roots, empty caches and a valid state |
| TreeService.Service.WalkUp | domain/service.go:456-472 | the parent-chain walk returns the path, and gives up exactly on unknown ids and chains over 4096 |
| TreeService.Service.VirtualPath | domain/service.go:451-479 | the cached answer is the uncached path, missing only where the walk gives up, whatever was evicted |
| TreeService.Service.ResolvePathId | domain/service.go:346-373 | the cached answer equals the uncached downward walk, found or not, whatever was evicted |
| TreeService.Service.InvalidatePrefix | domain/service.go:3769-3790 | exactly the pairs at or under the normalised path are dropped from both caches, or all for the root |
| TreeService.Service.InvalidateById | domain/service.go:3792-3808 | pairs stay current, and both caches are emptied when the walk gives up |
| TreeService.Service.SyncSingle | domain/service.go:2768-2791 | a new or already indexed node has its parent's path plus its name, no other path changes, and the caches stay sound |
| TreeService.RenameAnswers | domain/service.go:2006-2060 | each answer to a rename comes exactly when its reason holds of the tree: no such node, an unusable name, a mount, another node at the new path or a dot name, and otherwise success |
| TreeService.Service.Rename | domain/service.go:2002-2100 | each answer exactly when its reason holds of the tree, success if and only if the name is the node's own or free for it, the renamed tree, and sound caches afterwards when the key normalised twice drops every pair of the renamed subtree |
| TreeService.Service.Move | domain/service.go:2380-2438 | the re-parented tree, and sound caches afterwards when the key normalised once drops every pair of the moved subtree, although parents are looked up while pairs are stale |
| TreeService.MoveNeedsClearing | domain/service.go:2426-2437 | whatever may be cached, a move leaves the caches sound if and only if the invalidated key drops every pair of the moved subtree |
| TreeService.DeleteNeedsClearing | domain/service.go:3183-3190 | whatever may be cached, a delete leaves the caches sound if and only if the invalidated key drops every pair of the deleted subtree |
| TreeService.Service.CollectSubtree | domain/service.go:3135-3158 | the worklist gathers exactly the subtree, each entity once |
| TreeService.Service.DeleteBatch | domain/service.go:3167-3178 | the batch removes the listed entities and exactly the edges that lead to them |
| TreeService.Service.DeleteSubtree | domain/service.go:3124-3190 | exactly the subtree's entities and edges go, the rest is unchanged, and the caches stay sound when the key normalised twice drops every pair of the deleted subtree |
| RootResolution.ResolveRootId | domain/service.go:3248-3297 | on any graph, cyclic or dangling, the walk terminates with the plain walk's answer whatever sound memo it starts from, and leaves a sound memo |
| RootResolution.LoopHasNoRoot | domain/service.go:3271-3276 | entities whose parents stay among them have no root |
| ChildPages.SeekSplits | domain/ports.go:12-18 | resuming at any position continues with exactly the rows after it, whether or not it is a row |
| ChildPages.DirectoriesFirst | domain/ports.go:12-18 | rows list directories before files, and each kind by name |
| ChildPages.ListAllChildren | domain/service.go:2967-2986 | paging by 1000 with the last row as cursor returns all rows once and in order |
| Pruner.EvenlySpacedTargets | domain/version_pruner.go:288-301 | the loop computes the specified targets |
| Pruner.TargetsSpanTheWindow | domain/version_pruner.go:288-301 | targets do not decrease, stay in the window, start at its older edge and end less than count minus one milliseconds before the newer |
| Pruner.NearestIsNearest | domain/version_pruner.go:260-276 | the chosen version is the first of those nearest to the target that are not kept yet |
| Pruner.PruneDecisions | domain/version_pruner.go:178-221 | the loops compute the decisions that `Pruner.DeletedIff` characterises, and without buckets only orphans |
| Pruner.BucketKeepSet | domain/version_pruner.go:223-282 | for any order the sort may return, the loops compute the keep set that `Pruner.KeptIffChosen` and `Pruner.BucketIsGreedy` characterise, and everything without buckets |
| Pruner.KeptIffChosen | domain/version_pruner.go:236-282 | with buckets a version is kept if and only if the one bucket whose window it lies in chooses it, each from its own window alone |
| Pruner.BucketIsGreedy | domain/version_pruner.go:242-282 | a bucket over its limit keeps, for each of its evenly spaced targets in turn, the nearest version not taken yet, and any other bucket its whole window |
| Pruner.MillisecondsTruncate | domain/version_pruner.go:238 | a retention counts in whole milliseconds, the rest dropped |
| Pruner.DeletedIff | domain/version_pruner.go:178-282 | a version is deleted if and only if it is an orphan whose grace is over, or live, unpinned, under some policy and not chosen by the bucket of its window |
| Pruner.NoPolicyKeepsLive | domain/version_pruner.go:228-234 | without buckets no live version is deleted |
| Pruner.OutsideEveryWindowIsDeleted | domain/version_pruner.go:236-252 | with buckets a live unpinned version outside every window is deleted |
| Pruner.DecisionsMembers | domain/version_pruner.go:178-221 | a version is deleted if and only if it is an expired orphan or an unpinned live version no bucket keeps |
| Pruner.ProtectedVersionsSurvive | domain/version_pruner.go:178-221 | pinned live versions and orphans in their grace period are never deleted |
| Pruner.DecisionsPartition | domain/version_pruner.go:178-221 | kept and deleted versions partition the input |
| Pruner.KeepSetIsStable | domain/version_pruner.go:223-282 | choosing again among the survivors in the same bucket order chooses the same versions |
| Pruner.PruningIsIdempotent | domain/version_pruner.go:178-282 | pruning the survivors at the same time with the same bucket order deletes nothing |
| Pruner.WindowsAreDisjoint | domain/version_pruner.go:236-252 | no version lies in the windows of two buckets |
| Pruner.EveryBucketMeetsItsQuota | domain/version_pruner.go:236-282 | for any order the sort may return, each bucket keeps the smaller of its limit and the number of versions in its window |
| UploadLocks.AtMostOneInside | adapter/s3/router.go:289-325 | in every interleaving at most one thread is in the critical section of an upload id, although lock objects come and go |
| UploadLocks.RefsCountThreads | adapter/s3/router.go:299-324 | a registered thread's lock is the one in the map, and its count is the number of threads registered for the id |
| UploadLocks.MapHoldsLiveIds | adapter/s3/router.go:314-323 | the map holds exactly the ids of registered threads |
| UploadLocks.SomeThreadCanMove | adapter/s3/router.go:312-324 | while threads are registered one of them can take a step |
| UploadLocks.RegisterJoins | adapter/s3/router.go:299-312 | a thread with a blank id is not registered, any other is registered for its id and waits |
| UploadLocks.CanEnterIff | adapter/s3/router.go:312-314 | a waiting thread can enter if and only if no thread is inside for its id |
| UploadLocks.MutexSteps | adapter/s3/router.go:312-324 | entering, unlocking and giving the reference back follow each other |
| UploadLocks.BlankIffTrimsToNothing | adapter/s3/router.go:300-302 | the ids that are not locked are those that trim to nothing |
| UploadSessions.StepKeepsInv | adapter/http/upload_sessions.go:1019-1201 | every handler, crash, cleanup and foreign write keeps the session invariant |
| UploadSessions.InstallsAreCounted | adapter/http/upload_sessions.go:1019-1156 | over every run the contents installed are one for the replace that succeeded or that the process did not survive, and one for each that failed after putting its content in place, all of the declared size and checksum |
| UploadSessions.InstallsAtMostOnce | adapter/http/upload_sessions.go:1117-1134 | over every run without a replace that fails that late, a session installs at most one content |
| UploadSessions.InstallsNeedRemovals | domain/service.go:1348-1359 | without overwrite every install but the first needs someone to have removed the file since, late failures or not |
| UploadSessions.WithoutOverwriteInstallsOnce | domain/service.go:1348-1359 | without overwrite a session installs at most once over every run in which nobody removes the file after an install |
| UploadSessions.LateFailureInstallsAgain | adapter/http/upload_sessions.go:1117-1134 | every run that ends in a late failure goes on to another install, directly with overwrite and after a removal of the file without |
| UploadSessions.LateFailureIsRefused | domain/service.go:1348-1359 | without overwrite, while the file stays, the process lives and the row is written back, every retry after a late failure is refused and the session is never committed |
| UploadSessions.RetryCanInstallTwice | domain/service.go:1406-1453 | a run in which a session with overwrite installs its content twice |
| UploadSessions.ReplacedOnceForAll | adapter/http/upload_sessions.go:1030-1201 | after a successful replace, or one the process did not survive, no later step starts or performs another |
| UploadSessions.RecordMeansCommittedOrGone | adapter/http/upload_sessions.go:199-243 | a commit record means the session is committed or gone, and a committed session has one |
| UploadSessions.EndedStaysEnded | adapter/http/upload_sessions.go:1304-1338 | committed, aborted and removed sessions never change phase except by removal, and install nothing more |
| UploadSessions.CommitSucceeds | adapter/http/upload_sessions.go:1101-1156 | an in-progress session whose content can be installed is committed with its content at the path and its record written |
| UploadSessions.UnrecordedCommitRecovers | adapter/http/upload_sessions.go:1056-1072 | a commit without recorded outcome is taken up again if and only if the file at the path has the declared size and checksum, and is never started over |
| UploadSessions.AbortEndsTheSession | adapter/http/upload_sessions.go:1304-1338 | an idle session can be aborted if and only if it is not committed, and its file stays |
| UploadSessions.CleanupRemovesTheSession | adapter/http/upload_sessions.go:199-243 | cleanup removes row and record at any phase, and no file |
| UploadSessions.FileChanges | adapter/http/upload_sessions.go:1111-1134 | only an install or someone else changes the file, and an install leaves the declared content, without overwrite only where there was none |
| UploadSessions.CommittedWasInPlace | adapter/http/upload_sessions.go:1056-1201 | over every run a session is committed only if the declared content was at its path |
| Segments.SegmentPlan | adapter/http/upload_sessions.go:511-526 | the loop computes the specified plan, empty cases and both ways to panic included |
| Segments.PlanTilesIff | adapter/http/upload_sessions.go:511-526 | the plan's segments follow each other from zero to the size if and only if both sizes are positive, their rounding-up sum fits 64 bits and the number of segments fits an allocation |
| Segments.PlanIsEven | adapter/http/upload_sessions.go:511-526 | every planned segment is as large as asked for, except that the last one may be shorter |
| Segments.PlanFails | adapter/http/upload_sessions.go:515-516 | a sum that wraps around gives no tiling, and one-byte segments of the largest size panic |
| Segments.PlanAgreesWithExpected | adapter/http/upload_sessions.go:528-541 | the size check of an uploaded segment expects exactly what the plan announced |
| Segments.ExpectedIff | adapter/http/upload_sessions.go:528-541 | an index is usable if and only if it is one of the session's and its segment is not empty, and the segment lies inside the upload |
| Segments.Assemble | adapter/http/upload_sessions.go:1250-1302 | assembly succeeds if and only if every segment is recorded, sized and hashed as expected, and returns them in index order |
| Segments.AssembledIsTheUpload | adapter/http/upload_sessions.go:1250-1302 | the assembled file has the declared size and each segment lies at its planned offset |
| Segments.AssemblyUndoesCutting | adapter/http/upload_sessions.go:1250-1302 | cutting a file by the plan and assembling the pieces gives the file back |
| Segments.FullCountCoversAll | adapter/http/upload_sessions.go:1077-1084 | as many distinct in-range indexes as segments are all the indexes |
| ChunkedDecoder.DecodedBytesAreSigned | adapter/s3/sigv4_chunked.go:125-193 | on any input the decoded bytes are exactly the bodies of non-empty, bounded chunks whose signatures chain from the seed |
| ChunkedDecoder.DiscardChunkTrailers | adapter/s3/sigv4_chunked.go:308-324 | trailer lines are skipped up to the empty one, with each error case |
| ChunkedDecoder.Decoder.LoadNextChunk | adapter/s3/sigv4_chunked.go:125-193 | a chunk becomes readable only after its signature is verified, and each failure has its error |
| ChunkedDecoder.Decoder.Read | adapter/s3/sigv4_chunked.go:100-118 | a read returns the next bytes of the decoded stream, and once nothing is left the same error then and ever after |
| ChunkedDecoder.Decoder.ReadAll | adapter/s3/sigv4_chunked.go:100-118 | any sequence of non-empty reads together returns the whole decoded stream and its end |
| ChunkedEncoding.DecodeUndoesEncode | adapter/s3/sigv4_chunked.go:100-215 | decoding the encoding of any chunks within the limit, with any trailers, returns their bytes and a clean end |
| ChunkedEncoding.EofIffCompleteOrCut | adapter/s3/sigv4_chunked.go:125-193 | a clean end is reported if and only if the stream is complete or cut at one of the listed points |
| ChunkedTruncation.CutStream | adapter/s3/sigv4_chunked.go:125-193 | for every honest stream and every cut position the decoded bytes are the bodies of the frames that lie whole before the cut, and the end is clean if and only if the position is inside a header line, right behind a data header or body, or inside or behind the trailer lines |
| ChunkedEncoding.CutBehindHeaderEndsCleanly | adapter/s3/sigv4_chunked.go:151-155 | a stream cut right behind a chunk header ends cleanly without being complete |
| ChunkedFraming.HexNumberIff | adapter/s3/sigv4_chunked.go:145-148 | a size is the value of its hexadecimal digits, in either case and with leading zeros |
| ChunkedFraming.ChunkIff | adapter/s3/sigv4_chunked.go:125-193 | a data chunk is accepted if and only if the stream begins with its header, its body and a line end, within the limit and signed as that body |
| ChunkedFraming.FinalIff | adapter/s3/sigv4_chunked.go:125-193 | the final chunk is accepted if and only if the stream begins with an empty chunk, signed as such, and trailer lines up to an empty one |
| ChunkedFraming.SkipTrailersIff | adapter/s3/sigv4_chunked.go:308-324 | any text is whole trailer lines and a tail, and the tail decides: nothing, a line cut off, the empty line, or a bare line feed |
| ChunkedFraming.EveryStreamIsAnswered | adapter/s3/sigv4_chunked.go:125-215 | every stream gets the answer its text calls for, each error with its one shape of input |
| UriEncoding.EncodeUri | adapter/s3/sigv4_canonical.go:291-309 | the loop computes the specified encoding |
| UriEncoding.DecodePercent | adapter/s3/sigv4_canonical.go:149-185 | the loop decodes, or returns the input on a malformed escape |
| UriEncoding.DecodeUndoesEncode | adapter/s3/sigv4_canonical.go:149-309 | decoding undoes encoding for every byte string (section 2.1 of RFC 3986) |
| UriEncoding.EncodedAlphabet | adapter/s3/sigv4_canonical.go:291-309 | an encoded string has only unreserved characters and percent signs (section 2.3 of RFC 3986) |
| UriEncoding.HexNibbleIff | adapter/s3/sigv4_canonical.go:174-185 | the value of a hexadecimal digit, in either case, and of nothing else |
| UriEncoding.UnreservedIff | adapter/s3/sigv4_canonical.go:291-309 | the bytes left alone are letters, digits, hyphen, dot, underscore and tilde |
| UriEncoding.PercentDecodeIff | adapter/s3/sigv4_canonical.go:149-172 | a text decodes to a string if and only if it spells it byte for byte, by the bytes themselves or by escapes |
| UriEncoding.EncodedIff | adapter/s3/sigv4_canonical.go:291-309 | the encoding is the one text that decodes to the string and has only plain bytes and upper-case escapes of the others |
| CanonicalQuery.CanonicalQueryString | adapter/s3/sigv4_canonical.go:94-142 | the loops compute the specified canonical form |
| CanonicalQuery.CanonicalIsIdempotent | adapter/s3/sigv4_canonical.go:94-142 | canonicalising a canonical string changes nothing, for every raw string |
| CanonicalQuery.CanonicalDecidesParams | adapter/s3/sigv4_canonical.go:94-142 | two query strings have the same canonical form if and only if they have the same parameters with the same multiplicities |
| CanonicalQuery.CanonicalIgnoresOrder | adapter/s3/sigv4_canonical.go:94-142 | the order of parameters does not matter |
| CanonicalQuery.DecodeOrRawIff | adapter/s3/sigv4_canonical.go:114-124 | a name or value stands for what it spells, or for itself if it spells nothing |
| CanonicalQuery.ParamIs | adapter/s3/sigv4_canonical.go:104-111 | the first equals sign parts name and value, and without one the value is empty |
| CanonicalQuery.ParamsArePieces | adapter/s3/sigv4_canonical.go:100-125 | the parameters are those of the non-empty pieces between ampersands, in order |
| CanonicalQuery.CanonicalIs | adapter/s3/sigv4_canonical.go:94-142 | the canonical string is exactly the parameters sent, by name and then by value, percent-encoded and joined |
| IfMatch.IfMatchSatisfied | domain/service_s3_write.go:289-307 | the loop decides whether some list element matches |
| IfMatch.ListMatchesStrongMembers | domain/service_s3_write.go:289-307 | a header listing ETags is satisfied if and only if the stored one is among its strong members (section 3.1 of RFC 7232) |
| IfMatch.UnknownETagMatchesIff | domain/service_s3_write.go:289-307 | an object without a known ETag satisfies a header if and only if it is not a star and some element is blank or only quotes |
| IfMatch.TrailingCommaMatchesUnknown | domain/service_s3_write.go:295-305 | a list of ETags with a comma left at its end is satisfied by an unknown ETag, the list itself is not |
| ConditionalWrites.RunIsHistory | domain/service_s3_write.go:110-231 | in every interleaving, with failures before and after the file is changed, the commits form one history: each was permitted in the key its predecessor and the late failures since had left |
| ConditionalWrites.UntroubledCommit | domain/service_s3_write.go:110-231 | without late failures in between, a commit starts from exactly what its predecessor left |
| ConditionalWrites.IfMatchSawPredecessor | domain/service_s3_write.go:125-142 | a committed If-Match operation matched the ETag its immediate predecessor left, or the empty one where a late failure has cleared it since |
| ConditionalWrites.OneCreatorPerAbsence | domain/service_s3_write.go:121-124 | between a committed put and a later If-None-Match creator there is a committed delete, late failures or not |
| ConditionalWrites.CommittedPut | domain/service_s3_write.go:161-231 | a committed put leaves the content it was given and an ETag that is its digest |
| ConditionalWrites.SwapsDoNotBothWin | domain/service_s3_write.go:125-142 | after a put whose content has another digest, the next commit is not a compare-and-swap against a given ETag |
| ConditionalWrites.PermittedIff | domain/service_s3_write.go:121-142 | each kind of condition is met exactly as its header says: none, create only, a list of ETags, a star, and for a delete the object looked up |
| ConditionalWrites.CommitsUnlessUntracked | domain/service_s3_write.go:121-231 | a permitted operation can commit with its full effect, except that a put never replaces a file the index does not know |
| ConditionalWrites.RunKeepsIds | domain/service_s3_write.go:161-231 | over every run an overwrite keeps the object's id and a create takes a new one |
| ConditionalWrites.ETagIsDigestIff | domain/service_s3_write.go:370-403 | in every run the ETag shown is the digest of the stored content if and only if nothing failed late since the last commit, or the failures since kept the ETag and left content with that very digest |
| ConditionalWrites.LostUpdate | domain/write_atomic.go:206-247 | a run in which a swap puts its content in place and fails, and a second swap against the same ETag commits over it |
| TokenBucket.Bucket.Consume | adapter/s3/ratelimit.go:97-114 | one call refills and takes as specified, and tokens stay between zero and the capacity |
| TokenBucket.WindowBound | adapter/s3/ratelimit.go:86-114 | for any non-decreasing call times, the calls admitted in any window are at most capacity plus rate times its length |
| TokenBucket.FoundIsLeast | adapter/s3/ratelimit.go:97-114 | a call finds exactly the least of what its windows leave: capacity plus rate times length, minus the calls admitted |
| TokenBucket.RefusedIff | adapter/s3/ratelimit.go:86-114 | a call is refused if and only if admitting it would exceed capacity plus rate times length in some window that ends with it |

## Left out

- TreeService.Service.SyncSingle: an id that is indexed under another path (a hard link or a move behind the service's back) and the re-issue of a duplicated id after a copy are not modelled.
- TreeService.Service.Rename: the filesystem rename is taken to agree with the index, so a taken name is one the index knows; ownership changes and the re-sync of the renamed node are not modelled.
- TreeService.Service.Move: the new parent is taken to be outside the moved subtree; what the check before it lets through is stated by MoveGuard.
- TreeService.Service.DeleteSubtree: children are pushed in any order instead of listing order, and the orphan marks on versions and the delete event are not modelled.
- MoveGuard.AdmitsIff: the directories of different mounts are taken not to lie inside each other.
- MoveGuard.AdmittedMoveKeepsTreeIff: the filesystem refuses a rename into the own subtree, and the copy that is tried next, so the index batch is not reached.
- MoveGuard.MoveIntoItselfPasses: that refusal by the filesystem is not modelled.
- MoveGuard.MoveBelowDotsPasses: that refusal by the filesystem is not modelled.
- CacheKeys.VirtualPathIsItsKeyIff: white space is ASCII only.
- TreeService.Service.ResolvePathId: the request normalisation before it is not modelled.
- Listing.FollowTokens: index entries and entities are fixed during the listing, lookup errors other than not-found are not modelled, and the base64 form of the token is taken as its key.
- Multipart.CommitsAtMostOnce: the legacy manifest recovery and cleanup, which repeat the same protocol over files, are not modelled.
- Multipart.CommitsWhatWasListed: a composite ETag is represented by the part digests it is computed from, and the object's content by its parts in order.
- PartLists.ValidateParts: letter case is folded for ASCII only, which is exact for hexadecimal digests, and white space is ASCII only.
- UploadSessions.InstallsAreCounted: the rollback of a failed batch create is not modelled.
- Pruner.PruningIsIdempotent: two passes that order buckets of equal retention differently are not covered.
- Segments.Assemble: the different errors of a failed assembly are one outcome.
- ConditionalWrites.RunIsHistory: directories at the key, multipart completes and the re-indexing of changed files by a detector are not modelled; the point lock is one lock because the parent directory is fixed.
- TokenBucket.Bucket.Consume: time and tokens are real numbers, without floating-point rounding.
- TokenBucket.WindowBound: time and tokens are real numbers, without floating-point rounding.
- TokenBucket.FoundIsLeast: time and tokens are real numbers, without floating-point rounding.
- TokenBucket.RefusedIff: time and tokens are real numbers, without floating-point rounding.
- ChunkedDecoder.DecodedBytesAreSigned: the hash and signature functions are one parameter, and nothing about forging signatures is claimed.
- The unsigned chunked decoder: the same framing without the signature chain.
- Path locks on versions and files by id, and the write-slot semaphores: plain mutexes and counters.
- The Pebble index with its flat-key rekeying, the binary codec, rescans and change detectors: not part of this model.
- Request parsing, rendering, authentication, logging, metrics, thumbnails and the command line: no invariant that spans operations.
