# A verified model of unfs3-raft

unfs3-raft is a user-space NFS version 3 server whose mutating calls are replicated through Raft. This
project models the parts of it that keep state, search, encode or pack bits, in Dafny, and proves what
those parts are for. Nothing here executes the C program.

| file | what it models |
|---|---|
| `FdModel.dfy`, `FdServer.dfy`, `FdAnswers.dfy`, `FdRuns.dfy`, `FdCache.dfy` | the file-descriptor cache, WRITE, READ, COMMIT, the idle sweep, the purge, and the write verifier |
| `Handles.dfy`, `HandleSearch.dfy`, `Reach.dfy`, `HandleCache.dfy`, `Recency.dfy` | file handles, the searches that resolve them and what they reach, the LRU cache in front, and what it gives up |
| `Replica.dfy`, `Adjusting.dfy` | handles that travel between replicas, and those in the arguments of a logged call |
| `Readdir.dfy`, `Paging.dfy`, `Traversals.dfy` | READDIR: cookies and pages, directories that stay as they are, and directories that change between pages |
| `Md5.dfy` | incremental MD5 |
| `RaftCodec.dfy`, `Xdr.dfy`, `LogEntries.dfy`, `ResultRing.dfy` | Raft datagrams, XDR, replicated log entries, and the ring that hands results back |
| `CreateVerifier.dfy` | the verifier of an exclusive CREATE, kept in file times |
| `Exports.dfy` | matching clients and paths against the exports list |
| `Bits.dfy`, `Bytes.dfy`, `Buffers.dfy`, `Pigeonhole.dfy` | bit operators, byte orders, a byte buffer filled from the front, and counting |

Code that changes things in place is a class or a method with loops. Each such method is proved equal to a
function on values, and the theorems are about those functions. Pure code is functions and lemmas.

## The main results

- **Write verifier.** In every run of WRITE, READ, COMMIT, sweep and purge, with any outcome of open, fsync
  and close, a COMMIT that answers with the epoch of an earlier WRITE to the file means that the data of
  that WRITE is on disk (`FdRuns.CommitMeansDurable`). The proof rests on an invariant that every step keeps
  (`FdServer.StepKeeps`) and that also conserves descriptors and counters. Exactly when each of the three
  calls succeeds, and when the epoch moves on, is told by the slots and the outcomes of the system calls
  (`FdAnswers.CommitAnswers`, `WriteAnswers`, `ReadAnswers`, `SweepExact`). Epochs are counted. On the wire
  only bytes 0 and 4 of the verifier ever change, so values repeat: comparing bytes is safe exactly if no
  two epochs share them (`FdRuns.SafeIffInjective`), and for this server some run always loses data
  unnoticed (`FdRuns.TwoBytesRepeat`).
- **Handles.** The hash-pruned search finds something exactly if there is something to find
  (`HandleSearch.WalkExact`): a listed path whose levels have the handle's hashes (`Reach.DecompExact`), and
  of several the one that comes first in the listings (`Reach.DecompFirst`). A composed handle leads back to
  its object whatever 8-bit hashes collide, and to its own path, if that is the only one, exactly when the
  path string fits the search buffer and the device number fits 32 bits (`ComposedResolvesIff`);
  `LongPathFails` and `BigDeviceFails` show both failures. A handle made on one replica and adjusted on
  another resolves there to the corresponding object (`Replica.CrossReplica`), and of every logged call a
  replica adjusts all handles and nothing else (`Adjusting.AllAdjusted`, `EntryRunsLocally`). The LRU cache
  never changes an answer for the worse (`HandleCache.CacheAgrees`), and until its clock wraps it gives up
  the object whose last hit or addition, by the history of calls alone, is the oldest
  (`Recency.EvictsOldestTouch`). Resolving is sound in every file system exactly for handles that have
  hashes and are not all zero (`DecompSoundIff`, `CacheSoundIff`).
- **READDIR.** A page is what fits, entry by entry, or an error, exactly as told by the sizes
  (`Readdir.PageExact`), and from its bytes a client gets back names, file ids, cookies and the end mark
  (`ResokDecodes`). The pages of an unchanged directory are the listing, names with the ids of their inodes,
  exactly if the first page that ends beyond the positions a cookie can hold is the last one
  (`Paging.PagingIff`). That is so for every directory of at most 2^20 or 2^32 entries (`ShortDirectory`).
  In longer ones the client is sent back and goes through the directory in laps; it is told the end exactly
  if one of the first 144 laps arrives there (`EofIff`), never if the directory is longer by 143 entries
  (`LongDirectory`), and in between sometimes after repetitions (`LateEof`). An entry that is present
  throughout a traversal is returned, however removals, renames and insertions are interleaved, as long as
  the server restarts the listing after a change other than an insertion (`Traversals.NoneSkipped`). Behind
  a page that ends within the span it fails to restart exactly after a multiple of 4096 or 2^32 removals and
  renames; behind a page that ends past it, after one more if the epoch was even (`CanMissAtIff`).
- **MD5.** However a message is cut into pieces, the digest is that of the padded message (`Md5.DigestOf`).
- **Replication.** Datagrams, log entries and XDR arguments decode to what was encoded
  (`RaftCodec.RoundTrip`, `LogEntries.LogRoundTrip`, `Xdr.RoundTrip`). From a caller's credentials to those
  a replica runs the call with, user, group and groups stay in place, all of them exactly up to 16 groups
  (`LogEntries.CallerLogged`, `RunsAsCaller`). The ring never serves a result twice and serves every call
  its own (`ResultRing.ServedOnce`, `ResultRing.AllServed`).
- **Exclusive create** is safe to retransmit among any other calls (`CreateVerifier.RetrySafe`), and a
  client whose verifier differs in one byte is told that the file exists exactly if no NUL comes before that
  byte (`RetryTells`). **Export matching** meets its one-line definition (`Exports.Selection.Lookup`).

## Model

| member | source | states |
|---|---|---|
| `FdServer.DelKeeps` | fd_cache.c:134-175 | removing or parking a slot keeps the invariant: distinct open descriptors, one slot per file and kind, counters equal to the open slots, and every acknowledged write durable, covered by a WRITE slot, or of an older epoch |
| `FdServer.OpenKeeps` | fd_cache.c:240-289 | opening reports a parked error, returns the file's cached descriptor, caches a new one, or leaves exactly one new descriptor outside the cache; the invariant holds in each case |
| `FdServer.CloseCached` | fd_cache.c:295-308 | closing a cached descriptor keeps the invariant, and success leaves the data durable, or covered if the close was virtual |
| `FdServer.CloseUncached` | fd_cache.c:309-321 | a descriptor outside the cache is closed once; success makes all unwritten data of the file durable and failure loses no acknowledged write |
| `FdServer.FsyncKeeps` | fd_cache.c:311-312 | a sync, failed or not, of a file without a WRITE slot keeps every acknowledged write safe |
| `FdServer.WriteCloses` | nfs.c:373-405 | after a WRITE whose transfer and close succeed, its data is durable, or the write was UNSTABLE and a slot covers it |
| `FdServer.WriteKeeps` | nfs.c:361-416 | WRITE keeps the invariant, including for the write it acknowledges |
| `FdServer.ReadKeeps` | nfs.c:294-359 | READ keeps the invariant, with the real close at end of file |
| `FdServer.CommitKeeps` | nfs.c:1068-1091 | COMMIT keeps the invariant |
| `FdServer.PurgeKeeps` | fd_cache.c:342-356 | the purge keeps the invariant for any fsync and close outcomes |
| `FdServer.PurgeCloses` | fd_cache.c:342-356 | after a purge the system has no descriptor open and both counters are zero |
| `FdServer.SweepKeeps` | fd_cache.c:361-398 | the idle sweep keeps the invariant |
| `FdServer.SweepGuarantee` | fd_cache.c:361-398 | after the sweep no open descriptor is idle beyond the timeout, a pending error remains only if a young one does, and unless the epoch has advanced a slot is emptied only by closing an idle descriptor without error, so no error is dropped, be it old or new in this sweep |
| `FdServer.StepKeeps` | fd_cache.c:134-398 | every step of the server keeps the invariant |
| `FdAnswers.CommitAnswers` | nfs.c:1068-1091 | COMMIT succeeds, in the epoch it started in, if and only if no slot is for writing the file or the one that is holds a descriptor whose fsync and close succeed; otherwise it fails and the epoch advances by one |
| `FdAnswers.OpenAnswers` | fd_cache.c:240-289 | opening delivers a descriptor if and only if one is cached, or no error is parked and the system opens the right file; a parked error alone moves the epoch on; the descriptor is then in the table if and only if it was or may be cached and a slot is free |
| `FdAnswers.CloseAnswers` | fd_cache.c:295-321 | closing succeeds if and only if it is virtual or the system calls succeed, and only a failure in the table moves the epoch on |
| `FdAnswers.WriteAnswers` | nfs.c:361-416 | WRITE succeeds if and only if the open delivers a descriptor, the transfer works, and the descriptor stays open or is synced and closed; the reply has the epoch the call started in and claims stable storage if and only if it was asked for; when the epoch moves on |
| `FdAnswers.ReadAnswers` | nfs.c:294-359 | READ succeeds if and only if the open delivers a descriptor and the transfer works, whatever the close does; when the epoch moves on |
| `FdAnswers.WriteStamps` | fd_cache.c:299-301 | a descriptor that stays in the table behind a WRITE carries the time of the call |
| `FdAnswers.ReadStamps` | fd_cache.c:299-301 | the same behind a READ before end of file |
| `FdAnswers.CloseStaleExact` | fd_cache.c:368-382 | slot by slot, the first pass closes the descriptors idle for more than two seconds, parks the errors it meets, and changes nothing else |
| `FdAnswers.SweepExact` | fd_cache.c:361-398 | the whole table behind a sweep, slot by slot: errors are dropped, and the epoch moves on, if and only if there are some and none is younger than two hours |
| `FdAnswers.PurgeExact` | fd_cache.c:342-356 | slot by slot, the purge closes every descriptor, parks the errors it meets and keeps those that wait; the epoch stays |
| `FdRuns.InitialInv` | fd_cache.c:87-99 | the initialised cache satisfies the invariant |
| `FdRuns.RunInv` | fd_cache.c:87-398 | the invariant holds in every state of every run from initialisation |
| `FdRuns.RunGrows` | fd_cache.c:134-398 | over any stretch of a run durable data, acknowledgements and the epoch never shrink |
| `FdRuns.AckKept` | nfs.c:397-401 | an acknowledgement, with the verifier sent, is remembered in every later state |
| `FdRuns.StableMeansDurable` | nfs.c:388-401 | a WRITE answered with a committed level other than UNSTABLE is durable from then on |
| `FdRuns.CommitEmpties` | fd_cache.c:326-337 | after a successful COMMIT no slot is left for writing the file |
| `FdRuns.CommitMeansDurable` | nfs.c:1068-1091 | a COMMIT with the epoch of an earlier WRITE to the same file implies that WRITE's data is durable |
| `FdRuns.RepeatLoses` | fd_cache.c:160-164 | two epochs with equal bytes give a run in which a client takes lost data for committed |
| `FdRuns.SafeIffInjective` | daemon.c:1309-1314 | comparing verifier bytes is safe in all runs if and only if no two epochs share their bytes |
| `FdRuns.VerifierOf` | daemon.c:1309-1314 | the random number reaches the first byte through the exclusive or and the clock the second, so that all 65536 verifiers occur |
| `FdRuns.TwoBytesRepeat` | daemon.c:1309-1314 | for any clock and random numbers the two bytes that are set repeat, and some run loses data unnoticed |
| `FdCache.Cache.constructor` | fd_cache.c:87-99 | 256 unused slots and zero counters |
| `FdCache.Cache.Unused` | fd_cache.c:105-124 | the first unused slot, -1 if and only if there is none |
| `FdCache.Cache.IdxByFd` | fd_cache.c:204-215 | the first slot with this descriptor and kind, or -1 |
| `FdCache.Cache.IdxByFh` | fd_cache.c:220-234 | the first slot with this device, inode, generation and kind, or -1 |
| `FdCache.Cache.Delete` | fd_cache.c:134-175 | the in-place removal has the effect whose invariant `DelKeeps` proves, on slots, counters, verifier and system |
| `FdCache.Cache.Insert` | fd_cache.c:180-199 | the first unused slot takes the descriptor and the counter of its kind goes up; a full cache stays as it is |
| `FdCache.Cache.Open` | fd_cache.c:240-289 | the whole new state and the descriptor, for every branch of opening |
| `FdCache.Cache.Close` | fd_cache.c:295-321 | the whole new state and the result, for cached and uncached descriptors |
| `FdCache.Cache.Sync` | fd_cache.c:326-337 | the file's WRITE slot is synced, closed and removed; without one nothing changes |
| `FdCache.Cache.PurgeAll` | fd_cache.c:342-356 | the loop equals the slot-by-slot purge |
| `FdCache.Cache.CloseInactive` | fd_cache.c:361-398 | both passes together equal the sweep of `SweepGuarantee` |
| `FdCache.Cache.CloseIdle` | fd_cache.c:368-382 | the first pass closes idle descriptors and reports exactly whether a pending error, and a young one, is left |
| `FdCache.Cache.DropPending` | fd_cache.c:391-395 | the second pass removes exactly the pending errors |
| `FdCache.Cache.WriteFile` | nfs.c:373-409 | committed level, verifier and new state of a WRITE, and success exactly under the condition of `WriteAnswers` |
| `FdCache.Cache.ReadFile` | nfs.c:320-353 | new state of a READ, and success exactly under the condition of `ReadAnswers` |
| `FdCache.Cache.CommitFile` | nfs.c:1077-1084 | verifier and new state of a COMMIT, and success exactly if the file has no slot for writing or one whose sync and close succeed |
| `FdCache.Cache.Serve` | fd_cache.c:240-398 | any sequence of calls on the real table keeps the invariant and gives the modelled replies |
| `Handles.CompRaw` | fh.c:213-254 | the component loop yields the handle with one hash per prefix, and fails exactly if a prefix cannot be examined, a directory was wanted, or the depth exceeds 43 |
| `Handles.HashIsXor` | fh.c:46 | the hash of an inode number is the exclusive or of its eight bytes |
| `Handles.CompExact` | fh.c:172-255 | a path has a handle if and only if it and all paths above it can be examined, it is at most 43 deep and a directory where one is wanted; every field of the handle, and one byte per level, is told from the attributes |
| `Handles.PathOfIs` | Config/exports.y:909-925 | an id stands for the first export that has it, and for none if none has it |
| `Handles.FsidOfIs` | fh.c:185-212 | whether a path is removable media, and its id, is decided by the first export that has the path |
| `Handles.ExtendCommutes` | fh.c:269-300 | extending a directory's handle by a child equals composing the child's path if and only if the handle is extended from the directory's hashes: its own, or those of the export point its device number is taken for |
| `Handles.ExtendTooDeep` | fh.c:289-290 | past depth 43 neither way gives a handle |
| `Handles.RootExtends` | fh.c:275-287 | names in the root get their composed handles if and only if no other export has the root's device number for its id |
| `Handles.ChainIsComp` | nfs.c:175-215 | any chain of lookups from any mounted directory, through dot names and removable media, with every handle sent as bytes, yields a handle of the place it leads to if each directory on the way is extended from its own hashes; without removable media it succeeds if and only if it never goes past depth 43 |
| `Handles.EncodeDecode` | fh.c:482-543 | encoding then decoding returns the handle, and the bytes pass the validity test |
| `Handles.EncodeLayout` | fh.c:516-543 | which bytes hold device, inode, generation, password hash, number of hashes and hashes, in host order |
| `Handles.DecodeEncode` | fh.c:482-543 | bytes that decode are the encoding of what they decode to, and pass the validity test |
| `Handles.EncodeInto` | fh.c:516-543 | the caller's buffer starts with the encoding, of length 21 plus the number of hashes |
| `HandleSearch.WalkSound` | fh.c:375-452 | a path found lies below the start, is the object searched for, and every component on it was listed, fitted and worth descending into |
| `HandleSearch.WalkComplete` | fh.c:375-452 | if a candidate path exists the search succeeds, whatever it tries first |
| `HandleSearch.WalkExact` | fh.c:375-452 | the search succeeds if and only if a candidate exists |
| `HandleSearch.DecompFinds` | fh.c:403-468 | a handle without hashes is answered with the root; otherwise a returned path that can be examined has the handle's device and inode, and one that cannot be is returned only for a handle with both zero |
| `HandleSearch.DecompSoundIff` | fh.c:403-468 | resolving a handle is sound in every file system if and only if the handle has hashes and is not all zero |
| `HandleSearch.NoHashesSoundIff` | fh.c:466-468 | in a given file system a handle without hashes is resolved soundly if and only if it is the root's |
| `HandleSearch.ForgedRoot` | fh.c:466-468 | concrete bytes that pass the validity test, name device 5 and inode 7, and resolve to a root on another device |
| `HandleSearch.ZeroFindsUnexaminable` | fh.c:403-411 | a concrete file system in which an all-zero handle resolves to an entry that cannot be examined |
| `HandleSearch.ComposedCandidate` | fh.c:172-255 | every suffix of a composed path is a candidate for its handle at its depth |
| `HandleSearch.ComposedResolves` | fh.c:457-477 | a composed handle of a listed path that fits resolves to its object despite hash collisions |
| `HandleSearch.ComposedResolvesIff` | fh.c:399-430 | for an object, file or directory, with one path apart from dot entries, the handle resolves to it if and only if the string fits and the device number is below 2^32 |
| `HandleSearch.WalkPasses` | fh.c:409-430 | the search never goes through a dot entry or through an object it is looking for |
| `HandleSearch.LongPathFails` | fh.c:399 | concrete paths of 1023 characters, four components deep, that `cat_name` accepts and whose composed handles do not resolve |
| `HandleSearch.BigDeviceFails` | fh.c:409 | a concrete object with a device number beyond 32 bits whose composed handle does not resolve |
| `HandleSearch.LocateSound` | locate.c:101-173 | the brute-force search returns only paths with the given device and inode |
| `Reach.CandidateFrom` | fh.c:375-452 | the recursive notion of a candidate is a condition on each level of the path |
| `Reach.DecompExact` | fh.c:457-477 | a handle with hashes is resolved if and only if some path, no deeper than its hashes, is listed level by level, fits its buffer, has the hash of each level but the last, passes no dots, and leads to its device and inode; the answer is such a path |
| `Reach.LocateExact` | locate.c:101-173 | the brute-force search finds an object if and only if it is enabled and such a path, through directories of the device, lies below the first mount point on the device; the answer is such a path |
| `Reach.DecompFirst` | fh.c:388-430 | of all such paths the one is returned that a walk in the order of the listings, from the top down, comes to first |
| `Reach.CatNameLeads` | nfs.c:67-109 | the path worked out for a name, dot or not, leads to the object seen under that name |
| `Reach.WherePlain` | nfs.c:67-109 | names that are no dots lead down one by one |
| `HandleSearch.Resolver.FhRec` | fh.c:375-452 | the recursive loop finds what the specified walk finds, and fills path and stat cache with it or leaves them alone |
| `HandleSearch.Resolver.DecompRaw` | fh.c:457-477 | the same for the whole search, with the root handle answered at once and the stat cache untouched |
| `HandleSearch.Resolver.LocatePfx` | locate.c:48-93 | the recursive loop equals the walk restricted to directories on the device |
| `HandleSearch.Resolver.LocateFile` | locate.c:101-173 | the search starts at the first mount point on the device and is off unless enabled |
| `Replica.AdjustStable` | daemon_raft.c:947-972 | adjusting is idempotent and its result does not depend on the incoming device |
| `Replica.AdjustBytesDecodes` | daemon_raft.c:947-972 | adjusted bytes decode to the adjusted handle, and adjusting bytes is idempotent |
| `Replica.AdjustedBytes` | daemon_raft.c:947-972 | a handle with hashes keeps all bytes but the four of the device, one without becomes the local root's |
| `Replica.RootAdjusted` | daemon_raft.c:954-963 | any handle without hashes, adjusted, resolves to the object of the local export root |
| `Replica.RootStays` | daemon_raft.c:916-942 | a root once known stays whatever becomes of the exports, and it is valid |
| `Replica.AdjustedIsComposed` | daemon_raft.c:947-972 | the adjusted handle agrees with the one the local replica would compose, except for the generation |
| `Replica.CrossReplica` | daemon_raft.c:916-972 | a handle made on A for rootA/p, sent as bytes and adjusted on B, resolves on B to the object at rootB/p |
| `Replica.LocalHandle.Init` | daemon_raft.c:916-942 | the root handle is composed once, from the first export, and kept only if valid |
| `Replica.LocalHandle.AdjustHandle` | daemon_raft.c:947-972 | the handle's bytes are rewritten in place to the adjusted handle |
| `Adjusting.AllAdjusted` | daemon_raft.c:1001-1072 | for every procedure the handles listed for adjusting are all the handles its argument type contains, and nothing else is changed |
| `Adjusting.StaysTyped` | daemon_raft.c:1210 | adjusted arguments are arguments of the same procedure |
| `Adjusting.EachAdjusted` | daemon_raft.c:1001-1072 | what holds of every handle afterwards is what holds of the images of the handles before |
| `Adjusting.EntryRunsLocally` | daemon_raft.c:1074-1210 | what a replica runs for a logged entry is the leader's call with every handle, and nothing else, rewritten to the local device |
| `Adjusting.AdjustForProc` | daemon_raft.c:1001-1072 | the switch over procedures computes the adjusted arguments, working out the local root on the way |
| `HandleCache.CacheAgrees` | fh_cache.c:217-293 | from any table and after any file-system change resolution succeeds whenever the uncached search does, and a returned path is the handle's object, or the root for a handle without hashes, or unexaminable for an all-zero handle |
| `HandleCache.CacheSoundIff` | fh_cache.c:217-293 | resolving through the cache is sound from every table and in every file system if and only if the handle has hashes and is not all zero |
| `HandleCache.NoHashesCachedIff` | fh_cache.c:274-284 | in a given file system a handle without hashes is resolved soundly from every table if and only if it is the root's |
| `HandleCache.ForgedRootCached` | fh_cache.c:274-284 | any handle without hashes resolves, from the initial table, to a root on another device |
| `HandleCache.ZeroCachesUnexaminable` | fh_cache.c:217-293 | a concrete table and file system in which an all-zero handle resolves unsoundly |
| `HandleCache.VictimIsLeast` | fh_cache.c:92-107 | once the table is full the victim is the first entry of smallest use other than the last hit, for any clock value |
| `HandleCache.VictimAvoidsLast` | fh_cache.c:82-108 | the victim is never the entry of the last hit, for any clock value |
| `HandleCache.IndexFinds` | fh_cache.c:124-135 | the limited search finds any entry of the table, so keys are unique and in range |
| `HandleCache.AddKeeps` | fh_cache.c:140-158 | adding any key, also the all-zero one, keeps keys of objects unique and inside the searched range |
| `HandleCache.LookupKeeps` | fh_cache.c:163-199 | a hit, a miss and an invalidation keep the invariant, for any key |
| `HandleCache.ZeroObjectOverwritten` | fh_cache.c:88-90 | if an object had device and inode zero, the entry of a hit on it could be the next victim, which is why file systems are taken to have none |
| `HandleCache.HitSurvives` | fh_cache.c:187-190 | the path returned by a hit is still in place after any other key is added |
| `HandleCache.MissSurvives` | fh_cache.c:282-284 | the path of a new entry is still in place after another key is added, unless and only unless the table is full, that key is new and the entry is the first of smallest use, as it can be when the clock has wrapped |
| `HandleCache.EvictsLeastRecent` | fh_cache.c:82-108 | while time stamps are distinct no live entry goes as long as a slot other than the last hit's is free, and after that the one with the smallest; `Recency.EvictsOldestTouch` says what that means for the calls |
| `HandleCache.RunKeeps` | fh_cache.c:140-293 | the invariant holds after any sequence of calls with any handles, and time stamps stay distinct and ordered until the clock wraps |
| `Recency.CallTouches` | fh_cache.c:140-293 | behind a call every live entry is as it was except that of the object it hit or added, which has the path given, the newest time and a place in the table |
| `Recency.RunOrdered` | fh_cache.c:140-293 | in every history from the initial table in which the clock cannot have wrapped, entries are used in the order of their last touches, told from the calls alone |
| `Recency.EvictsOldestTouch` | fh_cache.c:82-108 | nothing live is given up while a slot other than the last hit's is free, and after that the object whose last touch is the oldest, except the last hit's |
| `Recency.CallHits` | fh_cache.c:178-190 | a hit makes its slot the one that is spared, and no other call changes which slot that is |
| `Recency.RunSpares` | fh_cache.c:163-199 | in every history the spared slot holds the object of the last hit or nothing, and none is spared before the first |
| `Recency.MissAnswers` | fh_cache.c:272-290 | a call that does not hit is answered along the hashes if such a path exists, else by the brute-force search, and fails if and only if neither finds anything |
| `Recency.SlotsGrow` | fh_cache.c:88-90 | slots are handed out one at a time, and only to objects that have none |
| `Recency.OthersStay` | fh_cache.c:140-158 | a call takes another object's path out of the table only to make room in a full one, and only the first of smallest use |
| `Recency.WrapLosesNewest` | fh_cache.c:64-67 | when the clock wraps, the newest entry of a full table is the next to go |
| `Recency.PresetResolves` | fh_cache.c:227-231 | the preset handle of a removable export point leads back to it from any table, if no other export has its id |
| `HandleCache.Cache.constructor` | fh_cache.c:72-75 | the empty cache satisfies both invariants |
| `HandleCache.Cache.NextTime` | fh_cache.c:64-67 | the clock advances by one and wraps at UINT_MAX |
| `HandleCache.Cache.Lru` | fh_cache.c:82-108 | the loop returns the specified victim, and the high-water mark moves by one while slots are left |
| `HandleCache.Cache.IndexOf` | fh_cache.c:124-135 | the loop returns the first entry with the key up to the high-water mark, or -1 |
| `HandleCache.Cache.Insert` | fh_cache.c:140-158 | an entry with the key is overwritten, otherwise the victim; the returned slot holds the path |
| `HandleCache.Cache.Invalidate` | fh_cache.c:113-119 | exactly one entry is cleared |
| `HandleCache.Cache.Find` | fh_cache.c:163-199 | a hit makes the entry the most recent one, as `Recency.CallTouches` proves, and fills the stat cache; a stale entry is cleared, a miss changes nothing |
| `HandleCache.Cache.AfterRename` | fh_cache.c:204-212 | the path is entered under the directory's device and the object's inode, if it exists |
| `HandleCache.Cache.ResolveHandle` | fh_cache.c:217-293 | result and new cache of resolving, with the stat cache invalid on failure and describing the object on success, and the counts of look-ups and hits |
| `Readdir.ChangeIsNextEpoch` | daemon.c:1319-1331 | changing the cookie value leads from the tag of one epoch to the tag of the next, with wrap-around |
| `Readdir.CookieRoundTrip` | readdir.c:79-93 | a cookie leads back to its position if the epochs since are a multiple of the number of tags, and to the start otherwise |
| `Readdir.PositionFits` | readdir.c:89-93 | within an epoch a cookie leads back to its position if and only if the position fits its 20 or 32 bits |
| `Readdir.StartExact` | readdir.c:79-93 | where any cookie leads in any epoch: position bits above their share are merged into the tag, and if the result is the current tag the server goes on at the low bits, otherwise at the start |
| `Readdir.CookiePastSpan` | readdir.c:79-93 | a cookie just past the span is accepted in the same tag after an odd epoch and in the next tag after an even one |
| `Readdir.StartLow` | readdir.c:79-93 | in any epoch a cookie leads to the start or to the low bits of its position |
| `Readdir.PageFits` | readdir.c:34-56 | a page has at most 142 entries and its XDR encoding fits the client's count and 4096 bytes unless it holds one entry |
| `Readdir.EntryDecodes` | xdr.c:1246-1259 | an entry on the wire is a flag and the XDR encoding of file id, name and cookie |
| `Readdir.ResokDecodes` | xdr.c:1246-1283 | from the bytes of a reply the client gets exactly its entries and its end mark |
| `Readdir.FileIdIdentifies` | readdir.c:160-164 | the file id is the inode number, or in 32-bit mode below 2^32, with bit k set if and only if bits k and k+32 of the inode number differ |
| `Readdir.PageExact` | readdir.c:130-206 | entries are taken as long as they fit the count and 4096 bytes; the call fails if and only if that stops at an entry that cannot be examined or is too long, and otherwise the page is what was taken, each entry with name, file id and cookie, and reports the end exactly if that is all |
| `Readdir.PageShape` | readdir.c:130-206 | a page lists consecutive entries from its position with their names, the ids of their inodes and consecutive cookies, reports the end exactly at the end, and is not empty before it |
| `Readdir.ProgressIff` | readdir.c:137-188 | before the end a page is empty if and only if the client accepts at most 104 bytes |
| `Paging.FollowCookie` | readdir.c:79-135 | the last cookie of a page leads to the position behind it if and only if that position fits |
| `Paging.PagingIff` | readdir.c:64-207 | a client that follows last cookies from any position receives the rest of the listing, names with the ids of their inodes, each entry once and in order, and then eof, if and only if the first page that ends past the span of a cookie is the last page |
| `Paging.EofIff` | readdir.c:64-207 | a client that goes on wherever its cookies lead is told eof if and only if one of the first 144 laps through the directory arrives at its end; after each other lap it is sent back to what is left of the position in odd epochs, and to the start in even ones |
| `Paging.EvenEofIff` | readdir.c:64-207 | in even epochs eof is reported from cookie 0 if and only if the pages are the listing |
| `Paging.LateEof` | readdir.c:79-93 | in 32-bit mode and odd epochs, a directory of 1048680 short names is never listed exactly, and yet eof is reported |
| `Paging.SentIs` | readdir.c:79-93 | where the last cookie of a page leads in its own epoch, for every position a page can end at |
| `Paging.WholeDirectory` | readdir.c:64-207 | from cookie 0 the pages are the whole listing, names with the ids of their inodes, each entry once, under exactly that condition |
| `Paging.ShortDirectory` | readdir.c:64-207 | a directory of at most 2^20 or 2^32 entries is always listed in full |
| `Paging.LongDirectory` | readdir.c:168 | in a directory longer than that by 143 entries eof is never reported, from any cookie and after any number of pages |
| `Traversals.NextKeeps` | readdir.c:79-199 | one page of a traversal leaves nothing unseen before its cookie, across restarts and insertions, in directories of any length |
| `Traversals.NoneSkipped` | readdir.c:79-199 | a name present throughout a traversal has been returned when eof is reported, if only insertions happened wherever the server went on from a cookie |
| `Traversals.NoneSkippedShort` | readdir.c:79-199 | in directories whose positions fit, that is so if every other change comes with a number of removals and renames that is no multiple of the number of tags |
| `Traversals.NeverEnds` | readdir.c:79-199 | a traversal of directories longer than the span by 143 entries never sees eof, whatever changes in between |
| `Traversals.WrapSkips` | daemon.c:1319-1331 | for every multiple of the number of tags, a concrete traversal with that many removals ends without an entry that was always there |
| `Traversals.CanMissIff` | daemon.c:1319-1331 | with a given positive number of removals and renames between them, the first two pages of a traversal can miss an entry that was always there if and only if that number is a multiple of the number of tags |
| `Traversals.CanMissAtIff` | readdir.c:79-93 | behind a page that ended at any position, an entry that is in both listings can be missed by the next page if and only if the server goes on from the cookie at a nonzero position |
| `Traversals.GoesOnIff` | readdir.c:79-93 | the server goes on after a multiple of the number of tags, or, past the span and after an even epoch, after one removal or rename more, and otherwise restarts |
| `Traversals.RunIsCollect` | readdir.c:64-207 | on an unchanged directory a traversal ends exactly when the client of `Paging.Collect` is told eof |
| `Traversals.RunEofIff` | readdir.c:64-207 | on an unchanged directory a traversal from the start ends at some time if and only if one of the first 144 laps arrives |
| `Readdir.Reader.ChangeCookie` | daemon.c:1319-1331 | the shifts and masks implement the step to the next epoch |
| `Readdir.Reader.ReadDir` | readdir.c:64-207 | the reply for every directory, cookie, count and error, taken from the linked static array; its entries are those of the directory from the cookie's position on, with the ids of their inodes |
| `Readdir.Reader.FillArray` | readdir.c:137-188 | the loop accepts exactly the entries that fit and links exactly those, also when the last one is taken back |
| `Readdir.Reader.TakeEntries` | readdir.c:190-199 | the list behind the first array element is the accepted entries |
| `Readdir.Reader.Skip` | readdir.c:130-135 | skipping stops at the cookie's position or at the end |
| `Md5.SplitRest` | md5.c:322-355 | compressing a message followed by data equals compressing its blocks, then its rest followed by the data |
| `Md5.CountWords` | md5.c:332-336 | adding to two words with a carry is adding modulo 2^64, also for sizes beyond 2^29 |
| `Md5.FinishPads` | md5.c:357-374 | the two final appends make exactly the padded message of sections 3.1 and 3.2 of RFC 1321 |
| `Md5.PaddedShape` | md5.c:357-374 | the padded message is whole blocks: the message, a one bit, zeros and the length in bits, with no more zeros than needed |
| `Md5.OneBlock` | md5.c:357-379 | a message of up to 55 bytes is one block |
| `Md5.StartBytes` | md5.c:313-320 | the initial words are the bytes that section 3.3 of RFC 1321 lists |
| `Md5.State.constructor` | md5.c:313-320 | the initial state is that of the empty message |
| `Md5.State.Append` | md5.c:322-355 | the state after a message becomes the state after the message and the data: digest words, buffer and counter |
| `Md5.State.TopUp` | md5.c:338-347 | the partial block is filled up, compressed when full, and the rest of the data is what follows |
| `Md5.State.Blocks` | md5.c:349-354 | whole blocks are compressed and what is left over is kept |
| `Md5.State.Finish` | md5.c:357-379 | the digest is the fold of the compression over the padded message |
| `Md5.DigestOf` | md5.c:313-379 | for every way to cut a message into appends the digest is that of the whole |
| `RaftCodec.GetPutEntry` | daemon_raft.c:586-651 | an entry followed by anything decodes to itself and uses exactly its bytes |
| `RaftCodec.GetPutEntries` | daemon_raft.c:653-669 | the same for an array of entries |
| `RaftCodec.GetPutFields` | daemon_raft.c:400-584 | the same for the header fields of a message, given their widths |
| `RaftCodec.RoundTrip` | daemon_raft.c:753-888 | each of the four messages followed by anything decodes to itself and uses exactly its bytes |
| `RaftCodec.MsgLayout` | daemon_raft.c:400-584 | the type byte and the fields of each message, in the order of the wire |
| `RaftCodec.SerializeRequestVote` | daemon_raft.c:400-420 | the buffer grows by exactly the message's fields in network order |
| `RaftCodec.SerializeVoteResponse` | daemon_raft.c:449-461 | the same for a vote |
| `RaftCodec.SerializeAppendEntries` | daemon_raft.c:479-503 | the same for the header of an AppendEntries |
| `RaftCodec.SerializeAppendResponse` | daemon_raft.c:538-558 | the same for its response |
| `RaftCodec.SerializeEntry` | daemon_raft.c:586-611 | the same for a log entry, with or without data |
| `RaftCodec.SerializeEntries` | daemon_raft.c:653-659 | the loop writes the entries one behind the other |
| `RaftCodec.Send` | daemon_raft.c:1290-1308 | the datagram is the type byte, the header and the entries, which `RoundTrip` decodes |
| `RaftCodec.DeserializeEntries` | daemon_raft.c:661-669 | the loop reads what the recursive definition reads, and fails where it fails |
| `Xdr.RoundTrip` | xdr.c:388-493 | a value of any argument type, with any union arm, followed by anything decodes to itself and stops behind its bytes |
| `Xdr.DecodeTyped` | xdr.c:388-493 | whatever bytes a routine accepts, the value it makes of them is one of its type |
| `Xdr.SizeIsLength` | daemon_raft.c:273-281 | the size computed first is the length of the encoding |
| `Xdr.Put` | xdr.c:388-493 | an encoding routine appends exactly the encoding to the stream |
| `Xdr.Stream.Get` | xdr.c:388-493 | a decoding routine produces the decoded value and stands behind it, or fails |
| `Layouts.OptLayout` | xdr.c:388-446 | an optional field is a 1 and the value, or a 0 |
| `Layouts.TimeLayout` | xdr.c:448-476 | a time setting is its discriminant, with seconds and nanoseconds only for the client's time |
| `Layouts.SattrLayout` | xdr.c:478-493 | settable attributes are four optional fields and two time settings in this order |
| `Layouts.CreateHowLayout` | xdr.c:834-852 | the three creation modes carry attributes, attributes and an 8-byte verifier |
| `Layouts.DeviceLayout` | xdr.c:1004-1023 | character and block devices carry attributes and two numbers |
| `Layouts.PipeLayout` | xdr.c:1004-1023 | sockets and pipes carry attributes only |
| `Layouts.WriteLayout` | xdr.c:773-788 | the arguments of WRITE are handle, offset, count, stability and data |
| `Layouts.PlainLayout` | xdr.c:495-511 | procedures whose arguments are a handle, or a handle and a name |
| `Layouts.SetattrLayout` | xdr.c:533-560 | the arguments of SETATTR are handle, attributes and an optional guard time |
| `Layouts.AccessLayout` | xdr.c:634-641 | the arguments of ACCESS are handle and rights |
| `Layouts.RangeLayout` | xdr.c:716-725 | the arguments of READ and COMMIT are handle, offset and count |
| `Layouts.PlaceFirst` | xdr.c:854-861 | the arguments of CREATE and MKNOD are a place and what to make |
| `Layouts.MakeLayout` | xdr.c:898-960 | the arguments of MKDIR are place and attributes, those of SYMLINK also the text |
| `Layouts.TwoPlacesLayout` | xdr.c:1145-1196 | the arguments of RENAME are the old place and the new one, those of LINK the file and the new place |
| `Layouts.ReaddirLayout` | xdr.c:1233-1244 | the arguments of READDIR are handle, cookie, verifier and count |
| `Layouts.ReaddirplusLayout` | xdr.c:1307-1320 | the arguments of READDIRPLUS are handle, cookie, verifier and two counts |
| `LogEntries.InfoRoundTrip` | daemon_raft.c:672-725 | client information decodes to itself |
| `LogEntries.InfoLayout` | daemon_raft.c:672-696 | which bytes hold address, user, group, number of groups and each group |
| `LogEntries.EntryLayout` | daemon_raft.c:279-339 | an entry is the procedure, the 92 bytes of the caller and the arguments |
| `LogEntries.CallerLogged` | daemon_raft.c:302-339 | from the caller's credentials to the call a replica parses: address, user, group, number of groups and up to 16 groups each in its place, all zero without AUTH_UNIX; every call but NULL gives an entry |
| `LogEntries.LogCall` | daemon_raft.c:259-339 | the same for the code that describes the caller and builds the entry |
| `LogEntries.ParseSound` | daemon_raft.c:1383-1428 | a call is taken only from a normal entry of full length, procedure and caller are what the bytes stand for, and the call could be logged again |
| `LogEntries.RunsAsCaller` | daemon_raft.c:1217-1229 | a replica runs the call with the caller's user and group, and with all of the caller's groups if and only if there are at most 16 |
| `LogEntries.RebuildCred` | daemon_raft.c:1217-1229 | the loop sets up the credentials of `RunsAsCaller` |
| `LogEntries.LogRoundTrip` | daemon_raft.c:1383-1428 | every replica recovers procedure, client and arguments of a logged call, and the entry has the length computed first |
| `LogEntries.OnlyNullRefused` | daemon_raft.c:273-277 | a call is refused for want of arguments if and only if it is the NULL procedure |
| `LogEntries.Describe` | daemon_raft.c:302-311 | the loop records what `CallerLogged` carries to the replicas: user, group, number of groups and at most 16 of them, the rest of the array zero |
| `LogEntries.SerializeInfo` | daemon_raft.c:672-696 | the buffer grows by the address and 19 words in network order |
| `LogEntries.Assemble` | daemon_raft.c:279-339 | procedure, client and arguments fill the allocated buffer exactly |
| `LogEntries.BuildEntry` | daemon_raft.c:273-339 | the entry is the one that `LogRoundTrip` parses, or nothing for a call without arguments |
| `LogEntries.ParseEntry` | daemon_raft.c:1383-1428 | the callback skips entries of other types or too short, and otherwise decodes the call |
| `ResultRing.DrainExact` | daemon_raft.c:370-389 | with increasing indices the drain returns exactly its own entry's result if it is kept, and leaves exactly the later ones |
| `ResultRing.EmptyInv` | daemon_raft.c:64-66 | the empty ring satisfies the invariant |
| `ResultRing.StepKeeps` | daemon_raft.c:69-91 | after any step the queue is the end of the log, and what is missing was drained past or pushed out by 999 later results |
| `ResultRing.FetchFindsOwn` | daemon_raft.c:370-389 | a call that no drain has passed finds its result if and only if fewer than 999 were stored after it |
| `ResultRing.RunKeeps` | daemon_raft.c:69-91 | the invariant holds throughout every run |
| `ResultRing.ServedOnce` | daemon_raft.c:370-389 | no result is handed out twice in any run |
| `ResultRing.AllServed` | daemon_raft.c:342-392 | a server that answers one call at a time gives every call the result of exactly its entry |
| `ResultRing.Ring.constructor` | daemon_raft.c:57-66 | the ring starts empty |
| `ResultRing.Ring.PutResult` | daemon_raft.c:69-81 | the ring refines a queue that keeps the latest 999 results |
| `ResultRing.Ring.GetResult` | daemon_raft.c:83-91 | the oldest result is taken; an empty ring gives none |
| `ResultRing.Ring.Poll` | daemon_raft.c:370-389 | the loop terminates with the drain's answer and the drain's remaining queue |
| `CreateVerifier.HashVerifier` | Config/exports.y:96-110 | the loop computes the hash of the bytes before the first NUL that `RoundUndone` and `OneApartIff` describe |
| `CreateVerifier.RoundUndone` | Config/exports.y:96-110 | each round can be undone: multiplying by the inverse of the prime and taking the byte out again gives the hash before |
| `CreateVerifier.SignExtends` | Config/exports.y:96-110 | bytes enter the hash as signed characters |
| `CreateVerifier.OneApartIff` | nfs.c:434-436 | verifiers that differ in one byte, NUL in neither, have different hashes if and only if no NUL comes before it |
| `CreateVerifier.KnownHashes` | Config/exports.y:96-110 | the published FNV-1a values of the empty string and of the letter a |
| `CreateVerifier.NulHides` | nfs.c:434-436 | verifiers that agree up to a NUL byte have the same hash |
| `CreateVerifier.StoreTimes` | nfs.c:446-457 | the stored times are non-negative signed 32-bit times in closed form |
| `CreateVerifier.LoadStoreIff` | nfs.c:465-481 | exactly which shifts of less than 448 days and 17 years leave the hash readable: from -32 up to 1504 hours and 0 or 1 second, down to -1505 hours if the three bits in the access time are zero, and down to -1 second if those in the modification time are |
| `CreateVerifier.LoadStore` | nfs.c:465-481 | the hash is read back unchanged after an access-time shift from -32 up to 1504 hours and a modification-time shift of 0 or 1 second |
| `CreateVerifier.FirstCreate` | nfs.c:514-543 | exclusive CREATE of a new name, for every outcome of the system calls: what the directory holds afterwards, and success if and only if the times were set, read back and not shifted too far |
| `CreateVerifier.LaterCreate` | nfs.c:552-583 | once a file carries a hash, a CREATE changes nothing: it reports the file for the same hash, answers NFS3ERR_EXIST for another, and fails if the file cannot be opened or examined |
| `CreateVerifier.RetrySafe` | nfs.c:483-590 | after a first CREATE that set the times, even if its reply was an error, any sequence of calls with any verifiers and outcomes makes no other file, and each gets the answer its hash and outcome call for |
| `CreateVerifier.RetryTells` | nfs.c:483-590 | the first client's verifier gets the file each time, and one that differs in a single byte, NUL in neither, is told that the file exists if and only if no NUL comes before that byte |
| `CreateVerifier.StoreFailure` | nfs.c:545-548 | if the times could not be set the file stays, and a retry succeeds if and only if its times happen to read back as the hash |
| `Exports.IsEqualAddr` | Config/exports.y:772-801 | the masked comparison holds if and only if the first `prefix` bits agree |
| `Exports.MakePrefix` | Config/exports.y:397-427 | the error flag is raised if and only if the mask is not ones followed by zeros, and otherwise the prefix is the number of ones |
| `Exports.OldNetMatches` | Config/exports.y:464-478 | a dotted netmask matches exactly the IPv4-mapped clients whose masked address equals the entry's |
| `Exports.LongestUnique` | Config/exports.y:857-880 | at most one export is the longest that applies, so the choice is determined |
| `Exports.Selection.FindHost` | Config/exports.y:806-823 | the first matching host of the list, with its password hash, or none |
| `Exports.Selection.FindClimb` | Config/exports.y:848 | the path is refused if and only if it contains `/../` |
| `Exports.Selection.Scan` | Config/exports.y:857-880 | the loop ends with the longest export that applies, or with everything cleared |
| `Exports.Selection.Lookup` | Config/exports.y:834-883 | options, path, id and anonymous ids are those of the longest applicable export and its first matching host, and -1 exactly when there is none |

## Where the code and its comments or standards part

- Section 3.3.7 of RFC 1813 wants verifiers that never repeat across losses. `regenerate_write_verifier`
  assigns through byte pointers, so only two bytes ever change. The theorems count epochs; the effect of the
  bytes is stated by `SafeIffInjective` and `TwoBytesRepeat`.
- The comment in fd_cache.c says that parked errors are reported by WRITE or COMMIT. A failed close of a
  reading descriptor is parked too, and the next READ of the file reports it. The model follows the code.
- `fh_comp_raw` leaves the password hash of a handle uninitialised. It is a parameter of the model.
- `fh_decomp` tests the length of a handle only. One without hashes is answered with the root whatever device
  and inode it names, and since `fh_rec` treats an object that cannot be examined as device 0 and inode 0,
  one with both zero resolves to the first unexaminable entry. `DecompSoundIff` and `CacheSoundIff` state that
  these are the exceptions.
- The position in a READDIR cookie is not masked before it is combined with the epoch. In directories with
  more entries than a cookie can count it runs into the tag: the client is sent back, and a cookie may be
  taken for one of the next epoch (`Readdir.StartExact`).
- A path that `fh_decomp` returns after a miss is not protected by `fh_last_entry`. Once the clock has wrapped
  the next entry may overwrite it (`HandleCache.MissSurvives`).
- `fh_cache_update` stores the directory's device with the object's inode. The cache theorems hold for such
  entries as well.
- `apply_nfs_operation` copies at most 16 groups but keeps the caller's count. With more than 16 the credentials
  claim groups that the array does not hold (`LogEntries.RunsAsCaller`).
- The comment in `put_result` guesses that two kept results would do. How many are needed is exact in
  `ResultRing.FetchFindsOwn`: a replica that is not the leader stores results without draining them, and a
  call loses its result once 999 others were stored after it.
- Clients that accept at most 104 bytes from READDIR get empty pages for ever (`ProgressIff`).

## Left out

- The Raft algorithm: libraft is an environment that applies entries in the order of their indices.
- Sockets, RPC registration, signals, options, logging and raft_log.c: input and output plumbing.
- FdModel.Fsync: a failed fsync is taken to lose all unwritten data of its file; data is tracked per WRITE call, not per byte range.
- FdServer.Possible: the clock is positive and no file has device, inode and generation all zero, since unused slots carry that key.
- Md5.DigestOf: the compression of one block is a given function, so the 64 rounds of `md5_process` are not modelled; the size shift of `md5_append` is taken to wrap, which standard C guarantees below 2^28 bytes only.
- RaftCodec.RoundTrip: messages that do not fit a datagram, and entries with a length but no data pointer, are not modelled; short datagrams decode to nothing instead of reading past the end.
- HandleCache.Proper: file systems are taken to have no object with device and inode both zero.
- HandleSearch.WalkExact: paths are sequences of components, so doubled slashes do not occur, and the adjustment of directory times before caching attributes is not modelled.
- The collision counting of `fh_rec` under Windows, and the attribute clean-up for removable exports.
- Adjusting.AdjustForProc: arguments are values, so the rewriting of the decoded C objects in place is captured per handle (`Replica.LocalHandle.AdjustHandle`) but not for the whole argument; a handle that does not decode stops the server.
- The execution of a logged call on the replica, beyond its arguments and credentials.
- ResultRing.AllServed: results are values, so the sharing of static result buffers between calls is not captured.
- CreateVerifier.Create: name checks, handles and attributes in the reply, and a 32-bit `time_t` are left out.
- Exports.Selection.Lookup: the password, the `fsid` out-parameter, which is set even without a matching host, and the password hash left over from an earlier look-up are not described.
- READDIRPLUS, user mapping, attributes, mount protocol, passwords, the Windows and AFS code, and the exports grammar.
