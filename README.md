# fswatcher in Dafny

A model of the core of `fswatcher`, a small Python 2 library that reports
files and directories being added, modified or removed under a directory
tree. It has two backends, and the model covers the core of each.

**The macOS backend** (`fswatcher/_mac_fsevents.py`). FSEvents only reports
*which directory* changed. The backend works out *what* changed by keeping a
`FileModificationIndex`: a map from each directory to a snapshot of its
entries and their modification times. `_get_changes` diffs a fresh listing
against the stored snapshot and produces `ADDED`, `MODIFIED` and `REMOVED`
records. `_rescan`, `rescan` and `build` drive it over one directory or over
a whole `os.walk`. Around the index, the model also covers the `_Stream`
flags `started` and `scheduled`, the stream callback, and the
`Watcher.changes` buffer that `next_change` pops.

**The Linux backend** (`_inotify.py`). It has:
- the flag constants;
- `_read_events`, which parses packed `struct inotify_event` records from a
  byte buffer;
- the module-level `watches` registry that `add_watch` fills and
  `remove_watch` empties;
- the lookup `watch` performs for each event.

Modules:
- `Results` (`results.dfy`): `Option` and `Result`.
- `Paths` (`paths.dfy`): Python 2's `posixpath.join` and `commonprefix`.
- `DirectoryDiff` (`directory_diff.dfy`): the per-directory diff as pure
  functions. It also has a reference "compare two snapshots" definition and
  the lemmas that relate the two.
- `FsEvents` (`fsevents.dfy`): the classes `FileModificationIndex`, `Stream`
  and `Watcher`, whose methods are proved against `DirectoryDiff`.
- `InotifyEvents` (`inotify_events.dfy`): the constants, the record encoding
  and the parser `ReadEvents`, proved against the function `Parse`.
- `InotifyWatches` (`inotify_watches.dfy`): the class `Registry` with
  `AddWatch`, `RemoveWatch` and `Dispatch`.

The operating system is an input throughout:
- `os.listdir` and `os.walk` are the oracles of a `FileSystem` value.
- Each listed entry carries the outcome of its `os.stat`: a stat result,
  ENOENT, or another error.
- `os.path.realpath` is an uninterpreted function.
- `inotify_add_watch` is a function from path and mask to a descriptor or -1.
- The FSEvents calls are recorded as a ghost sequence of `NativeCall` events.

Modification times are `real` values that are only compared with `!=`.

Behaviour of the code that the model keeps as written:
- The stream callback rescans each reported path **non-recursively**, because
  `rescan` defaults to `recursive=False`.
- `build` returns the records of its initial scan, and `_Stream.start`
  discards them.
- A second `destroy` calls `FSEventStreamRelease(None)`.
- The root check in `rescan` is character-wise. `/w` admits `/wx`.
- When `os.stat` raises an error other than ENOENT partway through a scan,
  the index already holds the fresh dict, filled up to that entry.

## Model

All source paths are relative to the repository root.

| member | source | states |
|---|---|---|
| Paths.Join | fswatcher/_mac_fsevents.py:292 | `os.path.join(dir, name)` is absolute when either part is; the full shape is `JoinShape` |
| Paths.JoinShape | fswatcher/_mac_fsevents.py:292 | `os.path.join(dir, name)` appends a relative name after exactly one separator (or none if the directory ends in `/`); an absolute name replaces the directory |
| Paths.CommonPrefix | fswatcher/_mac_fsevents.py:322 | the result is a prefix of both strings and cannot be extended: the next characters differ or one string ends |
| Paths.PrefixGuardIsPrefix | fswatcher/_mac_fsevents.py:322 | the guard `commonprefix([root, path]) == root` holds exactly when `root` is a character-wise prefix of `path` (both directions) |
| Paths.PrefixGuardAdmitsSibling | fswatcher/_mac_fsevents.py:322 | the guard lets a sibling through: root `/w` admits `/wx` |
| DirectoryDiff.FirstFault | fswatcher/_mac_fsevents.py:293-299 | the position where the scan re-raises: every earlier stat succeeded or hit ENOENT, and the stat at that position failed otherwise (or the listing is clean) |
| DirectoryDiff.FirstFaultAt | fswatcher/_mac_fsevents.py:293-299 | the first fault is the unique position that fits that description |
| DirectoryDiff.CleanWhenNoFirstFault | fswatcher/_mac_fsevents.py:293-299 | when the scan runs to the end, no stat raised |
| DirectoryDiff.SnapshotKeys | fswatcher/_mac_fsevents.py:301 | `new_contents` holds exactly the names whose stat succeeded |
| DirectoryDiff.SnapshotHoldsFreshMTime | fswatcher/_mac_fsevents.py:301 | each name whose stat succeeded maps to its own fresh mtime |
| DirectoryDiff.ScanVanished | fswatcher/_mac_fsevents.py:296-298 | an entry that vanished before its stat (ENOENT) changes neither snapshot and adds no record |
| DirectoryDiff.ScanFound | fswatcher/_mac_fsevents.py:301-311 | a stat'ed entry enters the fresh snapshot, is struck from the old one, and appends its classification |
| DirectoryDiff.EnumerationSize | fswatcher/_mac_fsevents.py:313-314 | iterating the leftover dict visits each leftover name exactly once |
| DirectoryDiff.RemovalsAreRemoved | fswatcher/_mac_fsevents.py:313-314 | the closing loop emits one `(join(dirpath, name), REMOVED)` per leftover name, in iteration order |
| DirectoryDiff.FrontHasNoRemoved | fswatcher/_mac_fsevents.py:306-310 | the scan loop emits only ADDED and MODIFIED records |
| DirectoryDiff.RemovedComeLast | fswatcher/_mac_fsevents.py:306-314 | within one call every ADDED/MODIFIED record comes before every REMOVED record |
| DirectoryDiff.OneRemovalPerLeftover | fswatcher/_mac_fsevents.py:311-314 | each old name that was not re-stat'ed successfully (missing, or vanished with ENOENT) yields exactly one REMOVED record, and there are no others |
| DirectoryDiff.FrontIgnoresDeletions | fswatcher/_mac_fsevents.py:306-311 | deleting from `old_contents` during the scan does not change any classification, since a listing never repeats a name |
| DirectoryDiff.FrontAgainstMembers | fswatcher/_mac_fsevents.py:306-310 | a record is in the scan's output exactly when some entry yields it |
| DirectoryDiff.ClassifiedIsCompared | fswatcher/_mac_fsevents.py:306-310 | each ADDED or MODIFIED record of an entry is one the snapshot comparison also has |
| DirectoryDiff.ComparedIsClassified | fswatcher/_mac_fsevents.py:306-310 | each ADDED or MODIFIED record of the snapshot comparison is yielded by some entry |
| DirectoryDiff.DiffWithinComparison | fswatcher/_mac_fsevents.py:286-315 | every record `_get_changes` returns is in the comparison of the old snapshot with the fresh one |
| DirectoryDiff.ComparedRemovalListed | fswatcher/_mac_fsevents.py:311-314 | every name only in the old snapshot is reported REMOVED |
| DirectoryDiff.ComparisonWithinDiff | fswatcher/_mac_fsevents.py:286-315 | every record of the snapshot comparison is returned |
| DirectoryDiff.DiffIsSnapshotComparison | fswatcher/_mac_fsevents.py:286-315 | the records of one call are exactly: ADDED for names new to the snapshot, MODIFIED for non-directories whose mtime differs (a directory never), REMOVED for names gone |
| DirectoryDiff.QuietWhenUnchanged | fswatcher/_mac_fsevents.py:306-310 | against a snapshot that already holds every fresh mtime, classifying each entry against the whole snapshot yields no record (`SecondPassIsQuiet` carries this to the front half of the scan) |
| DirectoryDiff.SecondPassIsQuiet | fswatcher/_mac_fsevents.py:289-314 | against the snapshot the first pass stored, the same listing yields no record and leaves nothing to remove |
| FsEvents.FirstFaultyStep | fswatcher/_mac_fsevents.py:281-283 | the walk step whose `_get_changes` raises first: all earlier steps are clean |
| FsEvents.WalkExtends | fswatcher/_mac_fsevents.py:281-283 | a successful `_get_changes` on the next step extends the index and the record list by that step |
| FsEvents.WalkStops | fswatcher/_mac_fsevents.py:281-283 | a failing `_get_changes` on the next step ends the rescan with that error |
| FsEvents.WalkFinishes | fswatcher/_mac_fsevents.py:280-284 | a walk whose every step succeeded returns the records of all steps in walk order |
| FsEvents.ScanEntries | fswatcher/_mac_fsevents.py:288-311 | the scan loop builds the fresh snapshot, the ADDED/MODIFIED records and the leftover old entries; on a stat error it stops with the snapshot so far |
| FsEvents.RecordEntry | fswatcher/_mac_fsevents.py:301-311 | one stat'ed entry: store its mtime, append its classification, strike it from the old snapshot |
| FsEvents.ReportRemoved | fswatcher/_mac_fsevents.py:312-314 | one REMOVED record per leftover name, in some order that lists each name once |
| FsEvents.RemovedRecordsCoverLeftover | fswatcher/_mac_fsevents.py:312-314 | whatever order the leftover dict is iterated in, every leftover name is reported REMOVED, one record per name, and no record of another kind |
| FsEvents.FileModificationIndex.constructor | fswatcher/_mac_fsevents.py:262-264 | the index starts empty, with the canonical root |
| FsEvents.FileModificationIndex.GetChanges | fswatcher/_mac_fsevents.py:286-315 | the directory's snapshot becomes the fresh one (the prefix scanned so far when a stat raises); on success the result is the diff; no other directory changes |
| FsEvents.FileModificationIndex.RescanUnchecked | fswatcher/_mac_fsevents.py:266-284 | `_rescan`: non-recursive uses the listing (ENOENT gives `[]` and no change), recursive uses the walk |
| FsEvents.FileModificationIndex.RescanDirectory | fswatcher/_mac_fsevents.py:271-278 | a directory that no longer exists yields `[]` and leaves the index untouched; another listing error propagates |
| FsEvents.FileModificationIndex.RescanTree | fswatcher/_mac_fsevents.py:280-284 | the index after the walk holds each visited directory's fresh snapshot, and the records are each step's diff concatenated; the first failing step ends it |
| FsEvents.FileModificationIndex.Build | fswatcher/_mac_fsevents.py:317-318 | `build` is a recursive rescan of the root |
| FsEvents.FileModificationIndex.Rescan | fswatcher/_mac_fsevents.py:320-323 | a canonical path outside the root fails the assertion and changes nothing; otherwise it rescans the canonical path |
| FsEvents.Size | fswatcher/_mac_fsevents.py:325-326 | `size` is at least each directory's entry count, and it is 0 exactly when every stored snapshot is empty |
| FsEvents.SizeWithout | fswatcher/_mac_fsevents.py:325-326 | the size is any one directory's entry count plus the size of the rest |
| FsEvents.SizeAfterStore | fswatcher/_mac_fsevents.py:325-326 | storing a snapshot changes the size by new count minus old count |
| FsEvents.SizeOfEmpty | fswatcher/_mac_fsevents.py:325-326 | a fresh index has size 0 |
| FsEvents.SizeAfterGetChanges | fswatcher/_mac_fsevents.py:325-326 | after a successful `_get_changes` the size counts the entries whose stat succeeded in place of the directory's previous entries |
| FsEvents.GetChangesStoresFreshSnapshot | fswatcher/_mac_fsevents.py:289-301 | after `_get_changes`, `_index[dirpath]` maps exactly the successfully stat'ed names to their fresh mtimes, and no other directory's snapshot changes |
| FsEvents.SecondScanReportsNothing | fswatcher/_mac_fsevents.py:289-314 | calling `_get_changes` again with the same listing returns `[]` and leaves the index as it was |
| FsEvents.WalkLeavesOthers | fswatcher/_mac_fsevents.py:280-284 | a recursive rescan leaves every directory the walk does not visit as it was |
| FsEvents.WalkStoresEachVisit | fswatcher/_mac_fsevents.py:281-283 | after a walk that visits each directory once, each visited directory holds the snapshot read on that visit |
| FsEvents.NonRecursiveRescanIsLocal | fswatcher/_mac_fsevents.py:271-278 | a non-recursive rescan changes at most the rescanned directory |
| FsEvents.Stream.constructor | fswatcher/_mac_fsevents.py:110-122 | `__init__` up to its call of `start`: the stream holds the handle `FSEventStreamCreate` returned and an empty index for the canonical path, and is not yet scheduled or started |
| FsEvents.OpenStream | fswatcher/_mac_fsevents.py:110-124 | the whole of `__init__`: a stream that exists is scheduled, started exactly when FSEvents accepted the start, and holds the index its recursive build produced; a refused start raises |
| FsEvents.Stream.Start | fswatcher/_mac_fsevents.py:134-149 | `scheduled` is set before the start attempt and `started` only when it succeeds; a refusal raises without building; otherwise the index is built by a recursive rescan whose records are discarded |
| FsEvents.Stream.Destroy | fswatcher/_mac_fsevents.py:151-160 | Stop only if started, Invalidate only if scheduled, always Release, then both flags clear and `stream` is None |
| FsEvents.Stream.OnEvents | fswatcher/_mac_fsevents.py:126-132 | each reported path is rescanned non-recursively in turn, and the records reach the callback in order (none when there is no callback); only the reported directories change; an error comes from the first rescan that raises (the root guard or an OS error), after the callback has received exactly the records of the rescans before it |
| FsEvents.Watcher.constructor | fswatcher/_mac_fsevents.py:178-181 | the change buffer starts empty |
| FsEvents.Watcher.Record | fswatcher/_mac_fsevents.py:197 | the stream callback appends the record to the buffer |
| FsEvents.Watcher.NextChange | fswatcher/_mac_fsevents.py:223-234 | with changes pending, it pops the most recent one (LIFO) without running the loop; otherwise it runs the loop once and pops the newest arrival, or returns None |
| InotifyEvents.MaskValues | _inotify.py:36-49 | `IN_CLOSE` = 0x18, `IN_MOVE` = 0xC0, and the registration mask of line 89 is 0x3C0 = `IN_CREATE\|IN_DELETE\|IN_MOVE`, disjoint from the other event bits |
| InotifyEvents.Bytes32 | _inotify.py:115 | the four little-endian bytes of a field decode back to it |
| InotifyEvents.EncodeEvent | _inotify.py:52 | one record is a 16-byte `'iIII'` header followed by exactly `len` name bytes |
| InotifyEvents.Reported | _inotify.py:116 | one `(wd, mask)` pair per record |
| InotifyEvents.ParseStep | _inotify.py:113-119 | one pass of the loop keeps the header's `(wd, mask)` and advances `offset` by exactly `16 + name_len` |
| InotifyEvents.ReadEvents | _inotify.py:96-120 | the loop returns exactly what `Parse` specifies for the buffer: a pair per header in buffer order, names skipped by length, a partial header rejected |
| InotifyEvents.EmptyBufferYieldsNothing | _inotify.py:100-113 | an empty buffer yields an empty list |
| InotifyEvents.ParseBound | _inotify.py:111-119 | each reported pair consumed at least a full 16-byte header |
| InotifyEvents.DecodeEncodedHeader | _inotify.py:114-115 | unpacking an encoded header gives back its `wd` (signed), `mask`, `cookie` and name length, and the name is followed by the rest of the buffer |
| InotifyEvents.RoundTrip | _inotify.py:113-120 | parsing a buffer of encoded records gives back each record's `(wd, mask)`, in order; cookie and name bytes are dropped |
| InotifyEvents.PartialHeaderRejected | _inotify.py:114-115 | a buffer that ends in a partial header is rejected, however many whole records come first |
| InotifyEvents.ShortNameAccepted | _inotify.py:113-119 | a last record whose name is cut short is still reported, since the loop just stops at the end |
| InotifyWatches.AsWrittenWatchPaths | _inotify.py:84-92 | as written: one path per entry of `watchdirs`, joined onto the last directory the walk visited, so an absolute entry passes through unchanged; none (`UnboundLocalError`) exactly when the walk yields nothing |
| InotifyWatches.JoinAll | _inotify.py:86 | one joined path per directory name |
| InotifyWatches.FirstRejected | _inotify.py:69-74 | the first directory the kernel refuses: every earlier one was accepted |
| InotifyWatches.FirstRejectedAt | _inotify.py:91-93 | the first refusal is the unique position that fits that description |
| InotifyWatches.CollectWatchDirs | _inotify.py:84-86 | `watchdirs` is the root followed by every subdirectory of the walk, joined onto its parent |
| InotifyWatches.Registry.constructor | _inotify.py:59 | the registry starts empty |
| InotifyWatches.Registry.AddWatch | _inotify.py:80-94 | the root and every subdirectory are registered in turn with the same `(path, callback)` info; a refusal raises, naming that directory, and keeps the registrations made so far |
| InotifyWatches.Registry.RemoveWatch | _inotify.py:136-146 | it succeeds exactly when some entry matches both path and callback; then exactly those entries are deleted and all others are kept; otherwise the assertion fails and nothing changes |
| InotifyWatches.Registry.Dispatch | _inotify.py:127-134 | each event in turn calls its watch's callback with the registered root path; an unregistered descriptor stops the loop with `KeyError` |
| InotifyWatches.Registry.OnReadable | _inotify.py:122-134 | a malformed buffer fails before any callback runs; otherwise its parsed events are dispatched |
| InotifyWatches.OverlayInsert | _inotify.py:94 | registering one more descriptor overlays one more key |
| InotifyWatches.RegisterOverlays | _inotify.py:91-94 | registering directory by directory maps every descriptor handed out to the new info and keeps every other entry |
| InotifyWatches.RemoveAfterAdd | _inotify.py:136-146 | removing what one `add_watch` registered leaves the earlier registry without that info and without any descriptor the kernel handed out again |
| InotifyWatches.AddThenRemoveRestores | _inotify.py:136-146 | with fresh descriptors and no earlier watch of the same path and callback, `remove_watch` undoes `add_watch` exactly |
| InotifyWatches.EventsReportRoot | _inotify.py:127-134 | an event from any directory registered by one `add_watch` reaches that call's callback with the root path, not the subdirectory's |
| InotifyWatches.SubdirsAbsolute | _inotify.py:86 | walking an absolute tree gives absolute subdirectory paths |
| InotifyWatches.AsWrittenAgreesForAbsoluteRoot | _inotify.py:92 | for an absolute root, joining onto the leftover walk variable gives the intended directory list |
| InotifyWatches.RelativeRootMisjoined | _inotify.py:92 | for a relative root line 92 asks the kernel for the wrong directories, and after an empty walk it leaves `path` unbound |

## Left out

- The FSEvents, CoreFoundation and PyObjC calls (stream creation, scheduling, start, stop, invalidate, release, the run loop and its observers, autorelease pools) are foreign calls. `Stream` records them as ghost `NativeCall` events, and the result of `FSEventStreamStart` is the parameter `startAccepted`.
- `watch_concurrently`, `_ConnectionProxy` and `_process_messages` are left out. They are threading, a multiprocessing pipe and run-loop wake-ups.
- The timeout of `next_change` and `_ChangeIterator` are left out. The run loop is one step during which the records in `arrived` are appended.
- `Watcher.destroy` is left out because it refers to an undefined `observer`. The module-level `get_changes` is left out because it refers to an undefined `path`.
- `Watcher.index_size` is left out. It only forwards to `size` of the single stream.
- `Watcher._start` is left out, because it only creates the streams and the run-loop observer. The buffer `__init__` sets up at line 181 is `Watcher.constructor`.
- ctypes, `inotify_init`, `inotify_rm_watch`, `ioctl(FIONREAD)`, `os.read`, `select` and `geterr` are left out. They are I/O and foreign calls. The parser takes the byte buffer as input, and `remove_watch`'s calls to `inotify_rm_watch` (which only print on error) are not recorded.
- `os.listdir`, `os.walk`, `os.stat` and `os.path.realpath` are inputs, not modelled operations.
- `fswatcher.py` and `fswatcher/__init__.py` (an older wrapper, the platform import shim and the command-line `main`) are not part of this model.
- `InotifyEvents.ReadEvents`: native byte order is fixed as little-endian, and the record layout is the one for a platform where `'iIII'` has no padding.
- `InotifyWatches.Registry.Dispatch`: the callbacks themselves are not run. A callback that changes the registry mid-dispatch is not modelled.
- `InotifyWatches.Registry.AddWatch`: the kernel is a fixed function of path and mask for the duration of one call, and watch descriptors are non-negative integers. Callbacks are compared with `==`, as `remove_watch` does at line 140. One number stands for one class of equal callbacks, so two accesses to the same bound method are the same callback.
- `FsEvents.Size`: `size` sums over the dict's values in an unspecified order. It is a ghost function defined by picking any directory, and it is specified by its lemmas.
- `FsEvents.Stream.constructor`: stops before the call of `start` at line 124, which `Stream.Start` models; `FsEvents.OpenStream` composes the two into the whole of `__init__`.
- `FsEvents.FileModificationIndex.GetChanges`: the order of the REMOVED records is the dict's iteration order. It is returned as a ghost enumeration, and the contract fixes only that each leftover name appears once.
- `FsEvents.Stream.Start`: the `runloop` argument is not modelled. The current run loop is implied.

## Findings

| source | as written | input that shows it | evidently intended | confidence | as-written member | corrected member |
|---|---|---|---|---|---|---|
| _inotify.py:92 | `_inotify_add_watch(os.path.join(path, each), flags)` joins every watch directory onto `path`, the variable the `os.walk` loop left behind | `add_watch("w", cb)` on a tree `w/a`: the kernel is asked for `w/a/w` and `w/a/w/a` instead of `w` and `w/a`; on an empty walk `path` is unbound and the call raises `UnboundLocalError` | `_inotify_add_watch(each, flags)` for each entry of `watchdirs` | not executed | InotifyWatches.RelativeRootMisjoined | InotifyWatches.Registry.AddWatch |
