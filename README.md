# dbxfs core, modelled in Dafny

This project models the sequential core of `dropboxfs/dbfs.py`, the
Dropbox-backed file system of dbxfs, and proves properties of that model.
The core has five parts:

- **Stat translation.** `_md_to_stat` turns a remote file or folder
  descriptor into a `(name, type, size, mtime)` record. `stat_has_attr`
  names the optional attributes.
- **Snapshot directory lister.** `_Directory` is a lazily paginated cursor
  walk over `files_list_folder` and `files_list_folder_continue`.
  - It skips tombstones.
  - It stops for good at the first file modified on the server after the
    enumeration began.
  - It follows pages only while they say `has_more`.
  - `read` gives `None` at the end. `reset` starts a fresh enumeration.
- **Metadata lookup and handles.** `_get_md_inner` answers the root
  locally. `stat`, `fstat`, `open` and `open_directory` use it. Handles
  opened at the root get the id `"/"`.
- **Watch registry.** `create_watch` appends a tuple to the registry.
  Its `stop` closure removes the first equal tuple, as `list.remove` does.
- **Change poller.** `delta_thread` runs a delivery cycle for each batch.
  - For every watch in the registry snapshot, in order, it announces a
    pending reset.
  - It then collects the batch entries under the watch's directory (only
    direct children when the watch is not recursive).
  - It reports each entry as removed or modified, and calls the callback
    only with a non-empty list.
  - Its two loop variables, `cursor` and `needs_reset`, form a small state
    machine.

Modules:

| file | module | contents |
|---|---|---|
| `types.dfy` | `Types` | descriptors (`File`, `Folder`, `Deleted`), `Option`, `Result`, the surfaced errors |
| `stat.dfy` | `StatTranslation` | `MdToStat`, `StatHasAttr` |
| `lister.dfy` | `Lister` | the listing semantics as functions, and the walk invariants the lister keeps |
| `directory.dfy` | `Directory` | class `DirectoryLister`, the `_Directory` handle with its generator state |
| `handles.dfy` | `Handles` | class `FileObject` (`_File`), handles, the watch tuple |
| `routing.dfy` | `Routing` | one delivery cycle: matching, classification, the callback log, methods `CollectChanges` and `Deliver` |
| `dbfs.dfy` | `Dbfs` | lookup with the root special case, `stat`/`fstat`, class `FileSystem` with `open`, `open_directory`, `create_watch` and `stop` |
| `poller.dfy` | `Poller` | the cursor/reset state machine, runs of iterations, the loop as written |

### Inputs in place of remote calls

The remote store, the clocks and the callbacks are inputs to the model:

- **Listing calls.** A directory handle is given `feed: seq<Response>`,
  the responses to its listing calls in the order the calls are made.
  Each response is a page `(entries, cursor, has_more)` or a failure.
  Calls beyond the end of the feed fail.
- **Metadata lookups.** A `Lookup` gives the answer of
  `files_get_metadata`: a descriptor, a path error (which becomes ENOENT)
  or any other API error (which is re-raised).
- **Clocks.** `datetime.utcnow()` and `datetime.now()` are the two fields
  of a `Clock`. Timestamps are integers.
- **Poller iterations.** Each iteration gets a `Round`: the answer of the
  latest-cursor call, the answer of the continue call (a batch, an
  exception that passes the `ListFolderContinueError` test of line 144,
  or any other error), and the registry snapshot.
- **Callbacks.** A callback is a number, and a callback call is an
  `Event` appended to a log.

### Where the model follows the code rather than its description

- **`create_watch` handle kind.** It accepts only an open file handle
  (`isinstance(dir_handle, _File)`, line 267). A directory handle is
  rejected with EINVAL. The poller then reads the handle's `_path_lower`,
  which only `_File` has. The model does the same: `Watch` holds a
  `FileObject`.
- **`reset` re-yields entries.** `reset` starts a new generator. The next
  enumeration lists from scratch and yields every entry again, under a new
  start time taken at its first `next()`.
- **Any other poller error keeps the cursor just obtained.** When the
  thread had no cursor, the latest-cursor call succeeded and the continue
  call then failed with some other error, the cursor obtained is kept,
  because the assignment at line 141 has already happened. The pending
  reset is kept too. The state is unchanged only when the thread already
  had a cursor (`Poller.StepOutcomes`).
- **The root has no id.** The root descriptor made up at line 232 carries
  no id. It is modelled as the empty id. Handles opened at the root use
  `"/"`, so no caller reads it.
- **`open` does not check the kind.** It opens a folder as readily as a
  file.

## Model

| member | source | states |
|---|---|---|
| StatTranslation.MdToStat | dropboxfs/dbfs.py:33-41 | the name is always the descriptor's name; the type is directory exactly for folders; a folder has size 0 and mtime = the supplied now; a file has its size and client-modified time |
| StatTranslation.StatHasAttr | dropboxfs/dbfs.py:254-255 | true exactly for "type", "size" and "mtime" (so never for "name") |
| Lister.RequestPath | dropboxfs/dbfs.py:58 | the first listing call uses the empty path for the root "/" and the directory's own path otherwise |
| Lister.TooNew | dropboxfs/dbfs.py:66-67 | folders and tombstones never mark the snapshot boundary; a file does exactly when its server-modified time is after the start |
| Lister.ListingFrom | dropboxfs/dbfs.py:50-75 | what one enumeration yields, page by page; no yielded entry is a tombstone or a file modified on the server after the start |
| Lister.BeforeBoundaryIsLongestSafePrefix | dropboxfs/dbfs.py:66-69 | the part of a page before the boundary is a prefix with no file newer than the start; it is shorter than the page exactly when the page holds such a file, and then the next entry is that file |
| Lister.LiveKeepsLiveEntries | dropboxfs/dbfs.py:63-65 | skipping tombstones keeps exactly the entries that are not tombstones |
| Lister.HasBoundaryAppend | dropboxfs/dbfs.py:63-69 | two joined pieces hold a boundary file exactly when one of them does |
| Lister.BeforeBoundaryAppend | dropboxfs/dbfs.py:63-75 | across joined pages, the part before the boundary stays within the first page if that page holds a boundary file, and otherwise continues into the next |
| Lister.LiveAppend | dropboxfs/dbfs.py:63-65 | skipping tombstones works page by page |
| Lister.NoBoundaryMeansWhole | dropboxfs/dbfs.py:63-72 | a page with no boundary file is walked to its end |
| Lister.ListingIsLivePrefixOfPages | dropboxfs/dbfs.py:56-75 | an enumeration yields exactly the non-tombstone entries before the first boundary file in the concatenation of the pages it follows; nothing after that file, on its page or any later page, is yielded |
| Lister.LiveIsSubsequence | dropboxfs/dbfs.py:63-65 | skipping tombstones keeps the remaining entries in order |
| Lister.ListingIsSubsequenceOfPages | dropboxfs/dbfs.py:63-70 | the yielded entries occur in the fetched pages in their original order |
| Lister.ListingStopsAtBoundary | dropboxfs/dbfs.py:66-69 | if the i-th entry of the pages is a boundary file, every yielded entry comes from before position i |
| Lister.ListingExample | dropboxfs/dbfs.py:53-75 | `/docs` holding `a.txt` (modified at t0) and `b.txt` (modified at t0+10), listed from t0+5, yields `a.txt` only and ends without error |
| Lister.ResumeAdvance | dropboxfs/dbfs.py:63-70 | a step over an entry before the boundary yields it unless it is a tombstone and leaves the rest of the walk as it was |
| Lister.ResumeAtBoundary | dropboxfs/dbfs.py:66-69 | at a boundary file the walk yields nothing more and ends without error |
| Lister.ResumeAtEnd | dropboxfs/dbfs.py:72-75 | at the end of a page the walk goes on with the next call exactly when the page has more, and otherwise ends without error |
| Lister.BoundaryFreeExtends | dropboxfs/dbfs.py:63-69 | walking past an entry that is not a boundary file keeps the walked part clear of boundary files |
| Lister.CallLogEntries | dropboxfs/dbfs.py:56-75 | the listing calls, one by one: the first lists by path, the empty path at the root; every later call continues from the cursor of the page before it, which had more and held no boundary file |
| Lister.StartAwaits | dropboxfs/dbfs.py:53-55 | a fresh enumeration, with no cursor, has yielded nothing and waits for its first call |
| Lister.FetchStep | dropboxfs/dbfs.py:56-62 | making the next call records it; a page is entered at its start, and a failing call ends the enumeration with the error |
| Lister.RequestsExtend | dropboxfs/dbfs.py:56-61 | the call made next (by path without a cursor, by cursor otherwise) extends the record of calls |
| Lister.RequestsMadeFrame | dropboxfs/dbfs.py:56-61 | the record of calls does not change while a page is walked |
| Lister.SkipStep | dropboxfs/dbfs.py:64-65 | a tombstone is passed over without being yielded |
| Lister.BoundaryStep | dropboxfs/dbfs.py:66-69 | a boundary file ends the enumeration without error, having yielded everything it yields |
| Lister.YieldStep | dropboxfs/dbfs.py:70 | any other entry is yielded next |
| Lister.PageEndStep | dropboxfs/dbfs.py:72-75 | at a page's end its cursor is kept; the walk makes another call only if the page has more, and otherwise has yielded everything |
| Lister.ValidWalkYieldsPrefix | dropboxfs/dbfs.py:50-75 | what an enumeration has yielded so far is a prefix of its snapshot, free of tombstones and of files newer than the start |
| Lister.ValidWalkRequests | dropboxfs/dbfs.py:56-75 | a started enumeration has made one call per fetched page; the first by path ("" for "/"), each later one a continuation from the previous page's cursor, and only after a page that had more |
| Directory.DirectoryLister.constructor | dropboxfs/dbfs.py:44-48 | a new handle keeps its path, id and remote store, and has not started an enumeration |
| Directory.DirectoryLister.Reset | dropboxfs/dbfs.py:83-84 | a fresh enumeration replaces the current one; nothing is listed until the next read |
| Directory.DirectoryLister.FetchPage | dropboxfs/dbfs.py:57-61 | one listing call; on a page the walk enters it, on an error the enumeration ends, failed, having yielded everything it yields |
| Directory.DirectoryLister.WalkEntry | dropboxfs/dbfs.py:63-70 | a tombstone is skipped; a boundary file sets the cursor to the page's cursor and ends the enumeration without error; any other entry is yielded; outside the boundary case the cursor is unchanged |
| Directory.DirectoryLister.EndPage | dropboxfs/dbfs.py:72-75 | the page's cursor is kept; the enumeration ends without error unless the page has more |
| Directory.DirectoryLister.Begin | dropboxfs/dbfs.py:53-55 | the start is the UTC clock reading and the cursor is cleared at the first step |
| Directory.DirectoryLister.Advance | dropboxfs/dbfs.py:56-75 | runs the loop up to the next yield: an item is the stat of the next snapshot entry, which is not a tombstone; otherwise the enumeration is over, having yielded its whole snapshot, and it raised exactly when the snapshot ends in a remote error |
| Directory.DirectoryLister.Next | dropboxfs/dbfs.py:92-93 | one `next()`: the start is fixed at its first step; yielded entries are a prefix of the snapshot with no tombstone and no file newer than the start; an item is the next entry's stat (folders dated by the local clock); after the end every `next()` stops |
| Directory.DirectoryLister.Read | dropboxfs/dbfs.py:77-81 | the next stat record, `None` once the enumeration is exhausted (also on every later read), or the remote error exactly when the snapshot failed |
| Handles.FileObject.constructor | dropboxfs/dbfs.py:96-100 | a handle keeps its lower-cased path and id, at offset 0 |
| Routing.Find | dropboxfs/dbfs.py:170 | `str.find`: -1 exactly when the character is absent, otherwise the index of its first occurrence |
| Routing.Reaches | dropboxfs/dbfs.py:162-171 | an entry that reaches a watch has a path starting with the scope prefix (the scope and "/", or "/" alone at the root), and for a non-recursive watch no "/" follows that prefix; every path with that prefix reaches a recursive watch |
| Routing.Classify | dropboxfs/dbfs.py:172-178 | a kept entry is reported under its own name, as removed exactly when it is a tombstone and as modified otherwise |
| Routing.ChangesFor | dropboxfs/dbfs.py:161-178 | the list `to_sub` one watch collects from a batch; at most one change per batch entry |
| Routing.CycleLog | dropboxfs/dbfs.py:156-184 | the callback calls of one delivery cycle, watch after watch; at most two per watch (a reset and a list), and at least one per watch when a reset is pending |
| Routing.ReachesIff | dropboxfs/dbfs.py:162-171 | an entry reaches a watch exactly when its path is the scope followed by "/" (just "/" at the root) and a remainder, with no further "/" in that remainder for a non-recursive watch |
| Routing.ScopeNeverReachesItself | dropboxfs/dbfs.py:162-168 | the watched directory itself (other than the root) never reaches its own watch |
| Routing.RecursiveSeesMore | dropboxfs/dbfs.py:169-171 | a recursive watch sees everything the non-recursive watch on the same directory sees |
| Routing.ReachesExamples | dropboxfs/dbfs.py:162-171 | `/a/b/c` reaches a non-recursive `/a/b` watch, `/a/b/c/d` only a recursive one, `/a/bc` not even a recursive one; the root's watch sees `/x` but not `/x/y` |
| Routing.ChangesForExample | dropboxfs/dbfs.py:162-178 | a non-recursive watch on a directory (say `/docs`) gets only `[Change(removed, name)]` for a tombstone of a direct child (`/docs/a.txt`) followed by a change one level deeper (`/docs/sub/c.txt`) |
| Routing.ChangesForAppend | dropboxfs/dbfs.py:165-178 | changes keep feed order |
| Routing.ChangesForMembers | dropboxfs/dbfs.py:165-178 | a change is in a watch's list exactly when some batch entry reaches the watch and is reported as that change — removed for a tombstone, modified otherwise, under the entry's name |
| Routing.ChangesForEmpty | dropboxfs/dbfs.py:165-180 | a watch's list is empty exactly when no batch entry reaches it |
| Routing.CycleLogAppend | dropboxfs/dbfs.py:156-184 | the calls of a cycle are grouped by watch, in snapshot order |
| Routing.CycleLogSplit | dropboxfs/dbfs.py:156-184 | the calls for watch i sit between those for the watches before it and those after it |
| Routing.ResetsAppend | dropboxfs/dbfs.py:157-158 | reset counts add up across a joined log |
| Routing.CycleLogResets | dropboxfs/dbfs.py:157-158 | with a reset pending, every watch of the snapshot gets exactly one `'reset'`, even one with no changes; with none pending, none |
| Routing.ResetPrecedesChanges | dropboxfs/dbfs.py:156-182 | each watch's reset comes right before its change list, and alone when the list is empty |
| Routing.CycleLogChanges | dropboxfs/dbfs.py:180-182 | a change-list call goes to a watch of the snapshot exactly when that watch's own list is non-empty, and carries that list |
| Routing.CycleLogNoEmptyLists | dropboxfs/dbfs.py:180-182 | no callback is handed an empty list |
| Routing.CollectChanges | dropboxfs/dbfs.py:161-178 | the inner loop collects exactly the watch's change list, in feed order |
| Routing.Deliver | dropboxfs/dbfs.py:156-184 | the nested delivery loops produce exactly the cycle's calls |
| Dbfs.GetMdInner | dropboxfs/dbfs.py:226-238 | the root is answered locally as the folder "/"; otherwise the remote descriptor is returned, a path error is ENOENT, and any other API error is passed on |
| Dbfs.StatOfRoot | dropboxfs/dbfs.py:231-258 | the root stats as a directory of size 0 named "/", dated now, whatever the remote store says |
| Dbfs.StatOf | dropboxfs/dbfs.py:240-258 | `stat` succeeds exactly when the lookup does, with `_md_to_stat` of the descriptor, and otherwise fails with the lookup's error |
| Dbfs.HandleId | dropboxfs/dbfs.py:247-252 | a handle's id is "/" at the root and the remote id elsewhere |
| Dbfs.Fstat | dropboxfs/dbfs.py:260-261 | `fstat` of a handle whose id is "/" (opened at the root) stats as the root with no remote answer used; elsewhere it is the `_md_to_stat` of the descriptor found, ENOENT on a path error, and the re-raised error on any other API error |
| Dbfs.RemoveFirst | dropboxfs/dbfs.py:277 | `list.remove` without its error: an absent element leaves the list as it is; a present one makes it one shorter, and nothing new appears |
| Dbfs.RemoveFirstMultiset | dropboxfs/dbfs.py:277 | `list.remove` of a present element takes exactly one copy away |
| Dbfs.RemoveFirstShape | dropboxfs/dbfs.py:277 | `list.remove` removes the first occurrence and keeps the order of the rest |
| Dbfs.RegisterThenStop | dropboxfs/dbfs.py:273-277 | stopping a watch straight after registering it gives back the very same registry when no equal tuple was there before |
| Dbfs.RegisterThenStopRemovesEarlierCopy | dropboxfs/dbfs.py:273-277 | with an equal tuple already registered (first at index k), stopping the new registration removes that earlier copy and the new one stays at the end; the old order comes back exactly when every tuple from k on equals the registered one |
| Dbfs.FileSystem.constructor | dropboxfs/dbfs.py:194-198 | a new file system has no watches |
| Dbfs.FileSystem.Open | dropboxfs/dbfs.py:245-248 | a lookup error is raised; otherwise a new handle on the descriptor's lower-cased path, with id "/" at the root, at offset 0 |
| Dbfs.FileSystem.OpenDirectory | dropboxfs/dbfs.py:250-252 | a lookup error is raised; otherwise a new directory handle on the lower-cased path with the root's id rule, with no enumeration started |
| Dbfs.FileSystem.CreateWatch | dropboxfs/dbfs.py:263-273 | a handle that is not an open file is EINVAL and the registry is unchanged; otherwise exactly the tuple is appended and returned |
| Dbfs.FileSystem.Stop | dropboxfs/dbfs.py:275-277 | removes the first equal tuple; fails, changing nothing, when none is registered |
| Dbfs.RegisterAndStop | dropboxfs/dbfs.py:263-279 | registering then stopping succeeds and gives the registry back its contents, and its exact list when no equal tuple was registered before |
| Poller.Step | dropboxfs/dbfs.py:137-188 | one iteration's update of `cursor` and `needs_reset`; it keeps "no cursor implies a pending reset", and only a delivering iteration clears a pending reset |
| Poller.RunLog | dropboxfs/dbfs.py:138-191 | the callback calls of a run of iterations (sleeps taken as pauses); a run in which no continue call succeeds calls no callback |
| Poller.RunLogAsWritten | dropboxfs/dbfs.py:138-191 | the callback calls of the loop as written, which ends at its first sleep; always a prefix of the intended run's calls |
| Poller.StepOutcomes | dropboxfs/dbfs.py:137-188 | a batch clears the pending reset and moves to its cursor; an invalid cursor is dropped and a reset becomes pending; any other error keeps the pending flag and the cursor obtained; without a cursor nothing changes; only a delivering iteration calls back |
| Poller.PendingResetAnnounced | dropboxfs/dbfs.py:156-158 | with a reset pending, the delivering iteration announces it to every watch of its snapshot, once each |
| Poller.RunAppend | dropboxfs/dbfs.py:138-191 | iterations compose: the state and the callback log of two runs joined are those of the first run followed by the second |
| Poller.RunKeepsInv | dropboxfs/dbfs.py:136-191 | the invariant holds after any run of iterations |
| Poller.FailuresKeepResetPending | dropboxfs/dbfs.py:143-151 | failed iterations keep a pending reset pending and call no callback |
| Poller.NoResetWithoutInvalidation | dropboxfs/dbfs.py:144-186 | once announced, no reset is announced again until a cursor is reported invalid |
| Poller.RecoversWithReset | dropboxfs/dbfs.py:144-186 | after an invalid cursor and any failures, the next delivering iteration announces a reset to every watch of its snapshot |
| Poller.AsWrittenStopsAtFirstSleep | dropboxfs/dbfs.py:150-191 | as written, the thread delivers what the intended loop delivers up to its first sleeping iteration and nothing after |
| Poller.FindingErrorEndsThread | dropboxfs/dbfs.py:143-151 | one failed continue call ends the thread as written, so a change the next iteration delivers in the intended loop never arrives |
| Poller.FindingCaughtUpEndsThread | dropboxfs/dbfs.py:186-191 | a batch with nothing more waiting also ends the thread as written, so later changes are lost |
| Poller.Iteration | dropboxfs/dbfs.py:139-188 | one loop body: the next loop variables are the state machine's step, and the callback calls are the cycle's log |
| Poller.Poll | dropboxfs/dbfs.py:135-191 | the loop, with sleeps taken as pauses: its final state and callback log are those of the run, and the invariant holds |
| Poller.PollAsWritten | dropboxfs/dbfs.py:135-191 | the loop as written: it stops at the first iteration that sleeps |

## Left out

- The Dropbox SDK calls (`files_list_folder`, `files_list_folder_continue`, `files_get_metadata`, `files_list_folder_get_latest_cursor`, `get_file`): they are not visible, so their answers are inputs (see above).
- `_File.pread` and `_File.read` (dropboxfs/dbfs.py:102-118): `pread` only wraps `get_file`; `read` uses an undefined `offset` and adds the returned bytes to an integer, so it has no behaviour worth a contract. `FileObject.offset` is carried but never changed.
- Threads and locks: the daemon thread, `_watches_lock` and the thread-local `_client`/`_clientv2` properties. The registry snapshot at dropboxfs/dbfs.py:153-154 is a plain copy of the list.
- Logging, and the timing of `time.sleep`. The intended loop treats a sleep as a pause; the loop as written ends at it (see Findings).
- The infinite loop itself: a run is a finite sequence of iterations.
- Real clocks: `datetime.utcnow()` and `datetime.now()` are inputs, and timestamps are integers.
- Time zones: `server_modified` is compared with the UTC reading as a plain number.
- The completion filter: it is carried in the watch tuple but never consulted, as in the source.
- The exception test of the poller (dropboxfs/dbfs.py:144): the outcome `InvalidCursor` stands for "the raised exception is an instance of `dropbox.files.ListFolderContinueError`", and the model assumes that test can succeed. The same file handles SDK failures as `dropbox.exceptions.ApiError` carrying the route's error union in `e.error` (lines 234-235), and every other `dropbox.files` name it uses is a descriptor type; read that way, the test at line 144 may never match, and an invalidated cursor would then be retried like any other error. The SDK is not part of this model, so this is not decided here. Should the test match, it matches every `ListFolderContinueError`, path errors included, not only an invalid cursor. `Poller.StepOutcomes`, `Poller.NoResetWithoutInvalidation` and `Poller.RecoversWithReset` describe the recovery that branch performs when it is taken.
- Callback failures: a change-list callback that raises is logged and skipped; a failing `'reset'` callback (outside the `try`) would end the thread. The model's callbacks only record their calls.
- `create_path` and `Path`: `dropboxfs/path_common` is not part of this model. Paths are strings, and `str(path)` is the path itself.
- `close` and `__iter__` of `_Directory`, and `FileSystem.close`: they do nothing.

## Findings

| source | as written | input that shows it | evidently intended | confidence | as-written member | corrected member |
|---|---|---|---|---|---|---|
| dropboxfs/dbfs.py:150-191 | `time.sleep(...)` is called but `time` is never imported, so the first sleep raises `NameError` and the poller thread dies | a failed continue call, or any batch with `has_more` false, followed by a batch with a change under a watched directory | sleep, then keep polling, so later changes are delivered | not executed | Poller.PollAsWritten, Poller.RunLogAsWritten, Poller.FindingErrorEndsThread, Poller.FindingCaughtUpEndsThread | Poller.Poll, Poller.RunLog |
