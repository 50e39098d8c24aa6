/** The macOS backend (fswatcher/_mac_fsevents.py): the directory-snapshot
    index `FileModificationIndex`, the `_Stream` lifecycle flags, and the
    `Watcher.changes` buffer that `next_change` pops.

    The filesystem is an input: `os.listdir` and `os.walk` are the oracles of
    a `FileSystem` value, each listed entry carries the outcome of its
    `os.stat`, and `os.path.realpath` is an uninterpreted function. FSEvents
    and run-loop calls are recorded as `NativeCall` events. */
module FsEvents {
  import opened Results
  import opened Paths
  import opened DirectoryDiff

  /** Exceptions that reach the caller: an `OSError` other than ENOENT, the
      `assert` in `rescan`, and the exception `_Stream.start` raises. */
  datatype Failure = OsError | AssertionFailed | StartFailed

  /** Outcome of `os.listdir(path)`. */
  datatype Listing = Listed(entries: seq<Entry>) | NoDir | ListFailed

  /** One `(dirpath, dirnames, filenames)` triple produced by `os.walk`. */
  datatype WalkStep = WalkStep(dirpath: Path, dirnames: seq<Entry>, filenames: seq<Entry>)

  datatype FileSystem = FileSystem(listdir: Path -> Listing, walk: Path -> seq<WalkStep>)

  /** `itertools.chain(dirnames, filenames)`: directories first. */
  function StepEntries(s: WalkStep): seq<Entry> {
    s.dirnames + s.filenames
  }

  /** `_index`: directory path to that directory's snapshot. */
  type Index = map<Path, Contents>

  /** `_index.get(dir, {})`. */
  function SnapshotOf(index: Index, dir: Path): Contents {
    if dir in index then index[dir] else map[]
  }

  /** Directories outside `dirs` keep exactly their previous snapshot (or stay absent). */
  ghost predicate UnchangedOutside(before: Index, after: Index, dirs: set<Path>) {
    forall d :: d !in dirs ==> (d in after <==> d in before) && (d in after ==> after[d] == before[d])
  }

  lemma UnchangedOutsideGrow(a: Index, b: Index, c: Index, dirs: set<Path>, d: Path)
    requires UnchangedOutside(a, b, dirs) && UnchangedOutside(b, c, {d})
    ensures UnchangedOutside(a, c, dirs + {d})
  {
  }

  lemma UnchangedOutsideWiden(a: Index, b: Index, dirs: set<Path>, wider: set<Path>)
    requires UnchangedOutside(a, b, dirs) && dirs <= wider
    ensures UnchangedOutside(a, b, wider)
  {
  }

  /** What one `_get_changes(dirpath, entries)` call does. The fresh snapshot
      replaces the directory's entry before the scan begins and is filled as
      the scan proceeds, so an error other than ENOENT leaves the prefix
      scanned so far in the index. */
  ghost predicate DirDiffOutcome(before: Index, after: Index, dirpath: Path, entries: seq<Entry>,
                                 r: Result<seq<Change>, Failure>, order: seq<Name>)
  {
    var k := FirstFault(entries);
    && after == before[dirpath := Snapshot(entries[..k])]
    && (r.Ok? <==> k == |entries|)
    && (r.Err? ==> r.error == OsError)
    && (r.Ok? ==>
          var prior := SnapshotOf(before, dirpath);
          Enumerates(order, Remaining(prior, entries).Keys) && r.value == Diff(dirpath, prior, entries, order))
  }

  /** The index after `_get_changes` succeeds for each step of a walk. */
  function WalkIndex(before: Index, steps: seq<WalkStep>): Index
    decreases |steps|
  {
    if steps == [] then before
    else
      var n := |steps| - 1;
      WalkIndex(before, steps[..n])[steps[n].dirpath := Snapshot(StepEntries(steps[n]))]
  }

  lemma WalkIndexSnoc(before: Index, steps: seq<WalkStep>, i: nat)
    requires i < |steps|
    ensures WalkIndex(before, steps[..i + 1]) == WalkIndex(before, steps[..i])[steps[i].dirpath := Snapshot(StepEntries(steps[i]))]
  {
    assert steps[..i + 1][..i] == steps[..i];
  }

  /** `orders[i]` enumerates the names that step `i` finds gone. */
  ghost predicate WalkOrdersValid(before: Index, steps: seq<WalkStep>, orders: seq<seq<Name>>)
    decreases |steps|
  {
    && |orders| == |steps|
    && (steps != [] ==>
          var n := |steps| - 1;
          && WalkOrdersValid(before, steps[..n], orders[..n])
          && Enumerates(orders[n], Remaining(SnapshotOf(WalkIndex(before, steps[..n]), steps[n].dirpath),
                                             StepEntries(steps[n])).Keys))
  }

  /** The records of a recursive rescan: each step's diff, in walk order. */
  ghost function WalkChanges(before: Index, steps: seq<WalkStep>, orders: seq<seq<Name>>): seq<Change>
    requires |orders| == |steps|
    decreases |steps|
  {
    if steps == [] then []
    else
      var n := |steps| - 1;
      WalkChanges(before, steps[..n], orders[..n])
        + Diff(steps[n].dirpath, SnapshotOf(WalkIndex(before, steps[..n]), steps[n].dirpath),
               StepEntries(steps[n]), orders[n])
  }

  lemma WalkOrdersSnoc(before: Index, steps: seq<WalkStep>, orders: seq<seq<Name>>, i: nat, order: seq<Name>)
    requires i < |steps| && WalkOrdersValid(before, steps[..i], orders)
    requires Enumerates(order, Remaining(SnapshotOf(WalkIndex(before, steps[..i]), steps[i].dirpath),
                                         StepEntries(steps[i])).Keys)
    ensures WalkOrdersValid(before, steps[..i + 1], orders + [order])
  {
    assert steps[..i + 1][..i] == steps[..i];
    assert (orders + [order])[..i] == orders;
  }

  lemma WalkChangesSnoc(before: Index, steps: seq<WalkStep>, orders: seq<seq<Name>>, i: nat, order: seq<Name>)
    requires i < |steps| && |orders| == i
    ensures WalkChanges(before, steps[..i + 1], orders + [order])
      == WalkChanges(before, steps[..i], orders)
         + Diff(steps[i].dirpath, SnapshotOf(WalkIndex(before, steps[..i]), steps[i].dirpath), StepEntries(steps[i]), order)
  {
    assert steps[..i + 1][..i] == steps[..i];
    assert (orders + [order])[..i] == orders;
  }

  /** Index of the first walk step in which some stat raises an error other
      than ENOENT, or `|steps|`. */
  function FirstFaultyStep(steps: seq<WalkStep>): (j: nat)
    ensures j <= |steps|
    ensures forall i :: 0 <= i < j ==> NoFault(StepEntries(steps[i]))
    ensures j < |steps| ==> !NoFault(StepEntries(steps[j]))
  {
    if steps == [] then 0
    else if !NoFault(StepEntries(steps[0])) then 0
    else
      var j' := FirstFaultyStep(steps[1..]);
      assert forall i :: 1 <= i < 1 + j' ==> steps[i] == steps[1..][i - 1];
      1 + j'
  }

  /** The first faulty step is where a run of clean steps ends at a faulty
      one, or the end of a clean walk. */
  lemma FirstFaultyStepAt(steps: seq<WalkStep>, i: nat)
    requires i <= |steps|
    requires forall j :: 0 <= j < i ==> NoFault(StepEntries(steps[j]))
    requires i < |steps| ==> !NoFault(StepEntries(steps[i]))
    ensures FirstFaultyStep(steps) == i
  {
  }

  /** What the recursive branch of `_rescan` does with the steps of `os.walk`. */
  ghost predicate WalkOutcome(before: Index, after: Index, steps: seq<WalkStep>,
                              r: Result<seq<Change>, Failure>, orders: seq<seq<Name>>)
  {
    var j := FirstFaultyStep(steps);
    if j == |steps| then
      && WalkOrdersValid(before, steps, orders)
      && after == WalkIndex(before, steps)
      && r == Ok(WalkChanges(before, steps, orders))
    else
      var es := StepEntries(steps[j]);
      && r == Err(OsError)
      && after == WalkIndex(before, steps[..j])[steps[j].dirpath := Snapshot(es[..FirstFault(es)])]
  }

  /** The state of a recursive rescan after the first `i` steps of the walk
      have each succeeded: the index, the dict orders and the records so far. */
  ghost predicate WalkedPrefix(before: Index, steps: seq<WalkStep>, i: nat, after: Index,
                               orders: seq<seq<Name>>, changes: seq<Change>)
  {
    && i <= |steps|
    && (forall j :: 0 <= j < i ==> NoFault(StepEntries(steps[j])))
    && after == WalkIndex(before, steps[..i])
    && WalkOrdersValid(before, steps[..i], orders)
    && changes == WalkChanges(before, steps[..i], orders)
  }

  /** Before the walk starts, nothing has been visited or reported. */
  lemma WalkStarts(before: Index, steps: seq<WalkStep>)
    ensures WalkedPrefix(before, steps, 0, before, [], [])
  {
    assert steps[..0] == [];
  }

  /** A successful `_get_changes` on the next step of a walk extends the
      walk's index, orders and records by that step. */
  lemma WalkExtends(before: Index, steps: seq<WalkStep>, i: nat, orders: seq<seq<Name>>, changes: seq<Change>,
                    visited: Index, after: Index, r: Result<seq<Change>, Failure>, order: seq<Name>)
    requires i < |steps| && WalkedPrefix(before, steps, i, visited, orders, changes)
    requires DirDiffOutcome(visited, after, steps[i].dirpath, StepEntries(steps[i]), r, order) && r.Ok?
    ensures WalkedPrefix(before, steps, i + 1, after, orders + [order], changes + r.value)
  {
    var es := StepEntries(steps[i]);
    assert NoFault(es) && after == visited[steps[i].dirpath := Snapshot(es)] by {
      CleanWhenNoFirstFault(es);
      assert es[..FirstFault(es)] == es;
    }
    WalkIndexSnoc(before, steps, i);
    WalkOrdersSnoc(before, steps, orders, i, order);
    WalkChangesSnoc(before, steps, orders, i, order);
  }

  /** A failing `_get_changes` on the next step of a walk ends the rescan
      with that failure. */
  lemma WalkStops(before: Index, steps: seq<WalkStep>, i: nat, orders: seq<seq<Name>>, changes: seq<Change>,
                  visited: Index, after: Index, r: Result<seq<Change>, Failure>, order: seq<Name>)
    requires i < |steps| && WalkedPrefix(before, steps, i, visited, orders, changes)
    requires DirDiffOutcome(visited, after, steps[i].dirpath, StepEntries(steps[i]), r, order) && r.Err?
    ensures WalkOutcome(before, after, steps, Err(OsError), orders)
  {
    FirstFaultyStepAt(steps, i);
  }

  /** A walk whose every step succeeded yields the accumulated index and records. */
  lemma WalkFinishes(before: Index, steps: seq<WalkStep>, orders: seq<seq<Name>>, after: Index, changes: seq<Change>)
    requires WalkedPrefix(before, steps, |steps|, after, orders, changes)
    ensures WalkOutcome(before, after, steps, Ok(changes), orders)
  {
    assert steps[..|steps|] == steps;
    FirstFaultyStepAt(steps, |steps|);
  }

  /** What `_rescan(path, recursive)` does. Non-recursively, a directory that
      no longer exists (ENOENT from `os.listdir`) yields no records and leaves
      the index as it was. */
  ghost predicate RescanOutcome(before: Index, after: Index, path: Path, recursive: bool, fs: FileSystem,
                                r: Result<seq<Change>, Failure>, orders: seq<seq<Name>>)
  {
    if recursive then WalkOutcome(before, after, fs.walk(path), r, orders)
    else
      match fs.listdir(path)
      case NoDir => r == Ok([]) && after == before
      case ListFailed => r == Err(OsError) && after == before
      case Listed(es) => |orders| == 1 && DirDiffOutcome(before, after, path, es, r, orders[0])
  }

  /** The loop of `_get_changes` over the listing: record each successfully
      stat'ed entry in the fresh snapshot `recorded`, classify it against the
      prior snapshot, and delete it from what is left of the prior snapshot.
      `scanned` is false when a stat raised an error other than ENOENT;
      `recorded` then holds the entries recorded before it. */
  method ScanEntries(dirpath: Path, entries: seq<Entry>, prior: Contents)
    returns (scanned: bool, changes: seq<Change>, leftover: Contents, recorded: Contents)
    ensures recorded == Snapshot(entries[..FirstFault(entries)])
    ensures scanned <==> FirstFault(entries) == |entries|
    ensures scanned ==> changes == Front(dirpath, prior, entries) && leftover == Remaining(prior, entries)
  {
    var oldContents := prior;
    var newContents: Contents := map[];
    changes := [];
    ghost var seen: seq<Entry> := [];
    var i := 0;
    while i < |entries|
      invariant 0 <= i <= |entries| && seen == entries[..i]
      invariant NoFault(seen)
      invariant newContents == Snapshot(seen)
      invariant oldContents == Remaining(prior, seen)
      invariant changes == Front(dirpath, prior, seen)
    {
      var e := entries[i];
      match e.probe {
        case NoEntry =>
          ScanVanished(dirpath, prior, seen, e);
        case StatFailed =>
          FirstFaultAt(entries, i);
          return false, changes, oldContents, newContents;
        case Found(st) =>
          ScanFound(dirpath, prior, seen, e);
          oldContents, newContents, changes := RecordEntry(dirpath, e, oldContents, newContents, changes);
      }
      assert entries[..i + 1] == seen + [e];
      seen := seen + [e];
      i := i + 1;
    }
    assert seen == entries;
    FirstFaultAt(entries, i);
    return true, changes, oldContents, newContents;
  }

  /** One pass of the loop of `_get_changes` for an entry whose `os.stat`
      succeeded: its mtime goes into the fresh snapshot, its record (if any)
      is appended, and it is struck from the prior snapshot. */
  method RecordEntry(dirpath: Path, e: Entry, oldContents: Contents, newContents: Contents, changes: seq<Change>)
    returns (oldAfter: Contents, newAfter: Contents, changesAfter: seq<Change>)
    requires e.probe.Found?
    ensures newAfter == newContents[e.name := e.probe.st.mtime]
    ensures oldAfter == oldContents - {e.name}
    ensures changesAfter == changes + Classify(dirpath, oldContents, e)
  {
    var st := e.probe.st;
    var path := Join(dirpath, e.name);
    newAfter := newContents[e.name := st.mtime];
    oldAfter := oldContents;
    changesAfter := changes;
    if e.name !in oldAfter {
      assert oldAfter - {e.name} == oldAfter;
      changesAfter := changesAfter + [Change(path, Added)];
    } else {
      if !st.isDir && oldAfter[e.name] != newAfter[e.name] {
        changesAfter := changesAfter + [Change(path, Modified)];
      }
      oldAfter := oldAfter - {e.name};
    }
  }

  /** The closing loop of `_get_changes`: one REMOVED record for each name
      still left in the prior snapshot, in the (unspecified) order the dict is
      iterated; `order` is that order. */
  method ReportRemoved(dirpath: Path, leftover: Contents) returns (records: seq<Change>, ghost order: seq<Name>)
    ensures Enumerates(order, leftover.Keys)
    ensures records == Removals(dirpath, order)
  {
    records, order := [], [];
    var rest := leftover.Keys;
    while rest != {}
      invariant rest <= leftover.Keys
      invariant forall a, b :: 0 <= a < b < |order| ==> order[a] != order[b]
      invariant forall n :: n in order <==> n in leftover.Keys - rest
      invariant records == Removals(dirpath, order)
      decreases rest
    {
      var name :| name in rest;
      assert name !in order;
      records := records + [Change(Join(dirpath, name), Removed)];
      order := order + [name];
      rest := rest - {name};
    }
  }

  /** Whatever order the leftover dict is iterated in, the closing loop
      reports every leftover name as REMOVED, once each, and nothing else. */
  lemma RemovedRecordsCoverLeftover(dirpath: Path, leftover: Contents, order: seq<Name>)
    requires Enumerates(order, leftover.Keys)
    ensures |Removals(dirpath, order)| == |leftover.Keys|
    ensures forall n :: n in leftover ==> Change(Join(dirpath, n), Removed) in Removals(dirpath, order)
    ensures forall c :: c in Removals(dirpath, order) ==> c.kind == Removed
  {
    assert Remaining(leftover, []) == leftover by {
      assert PresentNames([]) == {};
    }
    OneRemovalPerLeftover(dirpath, leftover, [], order);
    RemovalsAreRemoved(dirpath, order);
    forall c | c in Removals(dirpath, order)
      ensures c.kind == Removed
    {
      var k :| 0 <= k < |Removals(dirpath, order)| && Removals(dirpath, order)[k] == c;
    }
  }

  /** Tracks the modification times of all items in a directory tree. */
  class FileModificationIndex {
    var index: Index
    const root: Path

    constructor(root: Path, realpath: Path -> Path)
      ensures this.root == realpath(root) && index == map[]
    {
      this.root := realpath(root);
      index := map[];
    }

    /** `_get_changes`: diff a fresh listing of `dirpath` against its stored
        snapshot, and store the fresh snapshot. The fresh dict is stored in
        the index before the scan fills it, so the index ends up holding
        whatever the scan recorded, also when a stat raises. */
    method GetChanges(dirpath: Path, entries: seq<Entry>) returns (r: Result<seq<Change>, Failure>, ghost order: seq<Name>)
      modifies this
      ensures DirDiffOutcome(old(index), index, dirpath, entries, r, order)
    {
      var oldContents := SnapshotOf(index, dirpath);
      var scanned, changes, leftover, newContents := ScanEntries(dirpath, entries, oldContents);
      index := index[dirpath := newContents];
      if !scanned {
        return Err(OsError), [];
      }
      // Any items left in the old snapshot must have been deleted.
      var removed;
      removed, order := ReportRemoved(dirpath, leftover);
      r := Ok(changes + removed);
    }

    /** `_rescan`: rescan one directory, or with `recursive` every directory
        `os.walk` yields, without the root check. */
    method RescanUnchecked(path: Path, recursive: bool, fs: FileSystem)
      returns (r: Result<seq<Change>, Failure>, ghost orders: seq<seq<Name>>)
      modifies this
      ensures RescanOutcome(old(index), index, path, recursive, fs, r, orders)
    {
      if !recursive {
        r, orders := RescanDirectory(path, fs);
      } else {
        r, orders := RescanTree(fs.walk(path));
      }
    }

    /** The non-recursive branch of `_rescan`: `_get_changes` on the listing,
        with an `os.listdir` that fails with ENOENT yielding no records. */
    method RescanDirectory(path: Path, fs: FileSystem)
      returns (r: Result<seq<Change>, Failure>, ghost orders: seq<seq<Name>>)
      modifies this
      ensures RescanOutcome(old(index), index, path, false, fs, r, orders)
    {
      match fs.listdir(path) {
        case NoDir =>
          // Ignore an exception caused by the directory being deleted.
          return Ok([]), [];
        case ListFailed =>
          return Err(OsError), [];
        case Listed(es) =>
          ghost var order;
          r, order := GetChanges(path, es);
          orders := [order];
      }
    }

    /** The recursive branch of `_rescan`: `_get_changes` on each directory
        of the walk `steps`, its records appended in walk order. */
    method RescanTree(steps: seq<WalkStep>)
      returns (r: Result<seq<Change>, Failure>, ghost orders: seq<seq<Name>>)
      modifies this
      ensures WalkOutcome(old(index), index, steps, r, orders)
    {
      ghost var before := index;
      var changes: seq<Change> := [];
      orders := [];
      WalkStarts(before, steps);
      var i := 0;
      while i < |steps|
        invariant WalkedPrefix(before, steps, i, index, orders, changes)
        decreases |steps| - i
      {
        var s := steps[i];
        ghost var visited := index;
        var r1, order := GetChanges(s.dirpath, StepEntries(s));
        if r1.Err? {
          WalkStops(before, steps, i, orders, changes, visited, index, r1, order);
          return Err(OsError), orders;
        }
        WalkExtends(before, steps, i, orders, changes, visited, index, r1, order);
        changes := changes + r1.value;
        orders := orders + [order];
        i := i + 1;
      }
      WalkFinishes(before, steps, orders, index, changes);
      r := Ok(changes);
    }

    /** `build`: the initial recursive scan of the root. The records it
        returns are discarded by `_Stream.start`. */
    method Build(fs: FileSystem) returns (r: Result<seq<Change>, Failure>, ghost orders: seq<seq<Name>>)
      modifies this
      ensures RescanOutcome(old(index), index, root, true, fs, r, orders)
    {
      r, orders := RescanUnchecked(root, true, fs);
    }

    /** `rescan`: canonicalise `path`, check that the root is a
        character-wise prefix of it, then rescan. */
    method Rescan(path: Path, recursive: bool, realpath: Path -> Path, fs: FileSystem)
      returns (r: Result<seq<Change>, Failure>, ghost orders: seq<seq<Name>>)
      modifies this
      ensures !(root <= realpath(path)) ==> r == Err(AssertionFailed) && index == old(index)
      ensures root <= realpath(path) ==> RescanOutcome(old(index), index, realpath(path), recursive, fs, r, orders)
    {
      var canonical := realpath(path);
      PrefixGuardIsPrefix(root, canonical);
      if CommonPrefix(root, canonical) != root {
        return Err(AssertionFailed), [];
      }
      r, orders := RescanUnchecked(canonical, recursive, fs);
    }
  }

  /** `size`: the number of entries over all stored snapshots. */
  ghost function Size(index: Index): (s: nat)
    ensures forall d :: d in index ==> |index[d]| <= s
    ensures s == 0 <==> forall d :: d in index ==> index[d] == map[]
    decreases |index|
  {
    if index == map[] then 0
    else
      var d :| d in index;
      var rest := index - {d};
      assert forall e :: e in rest ==> rest[e] == index[e];
      |index[d]| + Size(rest)
  }

  lemma {:induction false} SizeWithout(index: Index, d: Path)
    requires d in index
    ensures Size(index) == |index[d]| + Size(index - {d})
    decreases |index|
  {
    var d' :| d' in index && Size(index) == |index[d']| + Size(index - {d'});
    if d' != d {
      DropBoth(index, d, d');
      SizeWithout(index - {d'}, d);
      SizeWithout(index - {d}, d');
    }
  }

  /** Storing a directory's snapshot changes the size by the difference of
      the new and old entry counts, and nothing else. */
  lemma SizeAfterStore(index: Index, d: Path, contents: Contents)
    ensures Size(index[d := contents]) == Size(index) - |SnapshotOf(index, d)| + |contents|
  {
    var updated := index[d := contents];
    SizeWithout(updated, d);
    StoreThenDrop(index, d, contents);
    if d in index {
      SizeWithout(index, d);
    } else {
      DropAbsent(index, d);
    }
  }

  lemma DropBoth(index: Index, d: Path, e: Path)
    requires d in index && e in index && d != e
    ensures index - {d} - {e} == index - {e} - {d}
    ensures (index - {e})[d] == index[d] && (index - {d})[e] == index[e]
  {
  }

  lemma StoreThenDrop(index: Index, d: Path, contents: Contents)
    ensures index[d := contents] - {d} == index - {d}
  {
  }

  lemma DropAbsent(index: Index, d: Path)
    requires d !in index
    ensures index - {d} == index
  {
  }

  lemma SizeOfEmpty()
    ensures Size(map[]) == 0
  {
  }

  /** After a successful `_get_changes`, the size counts exactly the entries
      whose stat succeeded in place of the directory's previous entries. */
  lemma SizeAfterGetChanges(before: Index, after: Index, dirpath: Path, entries: seq<Entry>,
                            r: Result<seq<Change>, Failure>, order: seq<Name>)
    requires DirDiffOutcome(before, after, dirpath, entries, r, order) && r.Ok?
    ensures Size(after) == Size(before) - |SnapshotOf(before, dirpath)| + |PresentNames(entries)|
  {
    var snap := Snapshot(entries);
    assert after == before[dirpath := snap] by {
      assert entries[..|entries|] == entries;
    }
    assert |snap| == |PresentNames(entries)| by {
      SnapshotKeys(entries);
      assert |snap| == |snap.Keys|;
    }
    SizeAfterStore(before, dirpath, snap);
  }

  /** `_get_changes` replaces only the scanned directory's snapshot, with
      exactly the entries whose stat succeeded, each mapped to its fresh mtime. */
  lemma GetChangesStoresFreshSnapshot(before: Index, after: Index, dirpath: Path, entries: seq<Entry>,
                                      r: Result<seq<Change>, Failure>, order: seq<Name>)
    requires DirDiffOutcome(before, after, dirpath, entries, r, order) && r.Ok?
    requires DistinctNames(entries)
    ensures dirpath in after && after[dirpath].Keys == PresentNames(entries)
    ensures forall i :: 0 <= i < |entries| && entries[i].probe.Found? ==>
      after[dirpath][entries[i].name] == entries[i].probe.st.mtime
    ensures UnchangedOutside(before, after, {dirpath})
  {
    var snap := Snapshot(entries);
    assert after == before[dirpath := snap] by {
      assert entries[..|entries|] == entries;
    }
    SnapshotKeys(entries);
    forall i | 0 <= i < |entries| && entries[i].probe.Found?
      ensures snap[entries[i].name] == entries[i].probe.st.mtime
    {
      SnapshotHoldsFreshMTime(entries, i);
    }
  }

  /** Idempotence: calling `_get_changes` again with the same listing and the
      same stat results returns no records and leaves the index unchanged. */
  lemma SecondScanReportsNothing(i0: Index, i1: Index, i2: Index, dirpath: Path, entries: seq<Entry>,
                                 r1: Result<seq<Change>, Failure>, o1: seq<Name>,
                                 r2: Result<seq<Change>, Failure>, o2: seq<Name>)
    requires NoFault(entries) && DistinctNames(entries)
    requires DirDiffOutcome(i0, i1, dirpath, entries, r1, o1)
    requires DirDiffOutcome(i1, i2, dirpath, entries, r2, o2)
    ensures r2 == Ok([]) && i2 == i1
  {
    var snap := Snapshot(entries);
    assert FirstFault(entries) == |entries| && entries[..|entries|] == entries by {
      assert entries[..|entries|] == entries;
      FirstFaultAt(entries, |entries|);
    }
    assert SnapshotOf(i1, dirpath) == snap;
    assert Front(dirpath, snap, entries) == [] && Remaining(snap, entries) == map[] by {
      SecondPassIsQuiet(dirpath, entries);
    }
    assert o2 == [] by {
      EnumerationSize(o2, Remaining(snap, entries).Keys);
    }
    assert r2.Ok? && r2.value == Front(dirpath, snap, entries) + Removals(dirpath, o2);
    assert i2 == i1[dirpath := snap];
    StoreSame(i1, dirpath);
  }

  lemma StoreSame(index: Index, d: Path)
    requires d in index
    ensures index[d := index[d]] == index
  {
  }

  /** A recursive rescan leaves the snapshot of every directory the walk
      does not visit as it was. */
  lemma {:induction false} WalkLeavesOthers(before: Index, steps: seq<WalkStep>)
    ensures UnchangedOutside(before, WalkIndex(before, steps), set i | 0 <= i < |steps| :: steps[i].dirpath)
    decreases |steps|
  {
    if steps != [] {
      var n := |steps| - 1;
      WalkLeavesOthers(before, steps[..n]);
      assert forall i :: 0 <= i < n ==> steps[..n][i] == steps[i];
    }
  }

  /** After a recursive rescan that visits each directory once, every visited
      directory's snapshot is the one read during that visit. */
  lemma {:induction false} WalkStoresEachVisit(before: Index, steps: seq<WalkStep>, i: nat)
    requires i < |steps|
    requires forall a, b :: 0 <= a < b < |steps| ==> steps[a].dirpath != steps[b].dirpath
    ensures var after := WalkIndex(before, steps);
      steps[i].dirpath in after && after[steps[i].dirpath] == Snapshot(StepEntries(steps[i]))
    decreases |steps|
  {
    var n := |steps| - 1;
    if i < n {
      assert steps[..n][i] == steps[i];
      WalkStoresEachVisit(before, steps[..n], i);
    }
  }

  /** A non-recursive rescan changes at most the rescanned directory's snapshot. */
  lemma NonRecursiveRescanIsLocal(before: Index, after: Index, path: Path, fs: FileSystem,
                                  r: Result<seq<Change>, Failure>, orders: seq<seq<Name>>)
    requires RescanOutcome(before, after, path, false, fs, r, orders)
    ensures UnchangedOutside(before, after, {path})
  {
  }

  function Flatten(parts: seq<seq<Change>>): seq<Change>
    decreases |parts|
  {
    if parts == [] then [] else Flatten(parts[..|parts| - 1]) + parts[|parts| - 1]
  }

  type StreamRef = nat

  /** The FSEvents calls a stream makes, in order. */
  datatype NativeCall =
    | CreateStream(path: Path)
    | ScheduleWithRunLoop(stream: Option<StreamRef>)
    | StartStream(stream: Option<StreamRef>)
    | StopStream(stream: Option<StreamRef>)
    | InvalidateStream(stream: Option<StreamRef>)
    | ReleaseStream(stream: Option<StreamRef>)

  /** `states[i]` is the index before the rescan of `eventPaths[i]` and
      `states[i + 1]` after it; each canonical path passed the root guard and
      its non-recursive rescan returned `results[i]`. */
  ghost predicate RescansEach(root: Path, eventPaths: seq<Path>, realpath: Path -> Path, fs: FileSystem,
                              states: seq<Index>, results: seq<seq<Change>>, orders: seq<seq<seq<Name>>>)
  {
    && |states| == |eventPaths| + 1 && |results| == |eventPaths| && |orders| == |eventPaths|
    && (forall i :: 0 <= i < |eventPaths| ==> root <= realpath(eventPaths[i]))
    && (forall i :: 0 <= i < |eventPaths| ==>
          RescanOutcome(states[i], states[i + 1], realpath(eventPaths[i]), false, fs, Ok(results[i]), orders[i]))
  }

  /** The rescan of the reported path `p` raised: either its canonical path
      failed the root guard, or the non-recursive rescan itself failed. */
  ghost predicate RescanRaises(root: Path, p: Path, realpath: Path -> Path, fs: FileSystem,
                               before: Index, after: Index, r: Result<seq<Change>, Failure>, order: seq<seq<Name>>)
  {
    && r.Err?
    && (if root <= realpath(p) then RescanOutcome(before, after, realpath(p), false, fs, r, order)
        else r == Err(AssertionFailed) && after == before)
  }

  lemma RescansEachSnoc(root: Path, eventPaths: seq<Path>, i: nat, realpath: Path -> Path, fs: FileSystem,
                        states: seq<Index>, results: seq<seq<Change>>, orders: seq<seq<seq<Name>>>,
                        after: Index, rs: seq<Change>, o: seq<seq<Name>>)
    requires i < |eventPaths|
    requires RescansEach(root, eventPaths[..i], realpath, fs, states, results, orders)
    requires root <= realpath(eventPaths[i])
    requires RescanOutcome(states[i], after, realpath(eventPaths[i]), false, fs, Ok(rs), o)
    ensures RescansEach(root, eventPaths[..i + 1], realpath, fs, states + [after], results + [rs], orders + [o])
  {
    var ps := eventPaths[..i + 1];
    var ss := states + [after];
    forall j | 0 <= j < |ps|
      ensures root <= realpath(ps[j])
      ensures RescanOutcome(ss[j], ss[j + 1], realpath(ps[j]), false, fs, Ok((results + [rs])[j]), (orders + [o])[j])
    {
      if j < i {
        assert ps[j] == eventPaths[..i][j];
      }
    }
  }

  /** `_Stream`: one FSEvents stream with its index. `hasCallback` says
      whether the stream's callback is set; `calls` records the FSEvents
      calls made on it. */
  class Stream {
    const path: Path
    const hasCallback: bool
    const index: FileModificationIndex
    var started: bool
    var scheduled: bool
    var stream: Option<StreamRef>
    ghost var calls: seq<NativeCall>

    /** A started stream has been scheduled: `start` sets `scheduled`
        before it can set `started`, and `destroy` clears both. Every
        operation of the stream ends in a state that satisfies it. */
    ghost predicate Valid()
      reads this
    {
      started ==> scheduled
    }

    /** `__init__` up to the call of `start`: the stream handle `ref` is what
        `FSEventStreamCreate` returned. */
    constructor(path: Path, hasCallback: bool, ref: StreamRef, realpath: Path -> Path)
      ensures Valid() && !started && !scheduled && stream == Some(ref)
      ensures this.path == path && this.hasCallback == hasCallback
      ensures fresh(index) && index.root == realpath(path) && index.index == map[]
      ensures calls == [CreateStream(path)]
    {
      this.path := path;
      this.hasCallback := hasCallback;
      index := new FileModificationIndex(path, realpath);
      started, scheduled := false, false;
      stream := Some(ref);
      calls := [CreateStream(path)];
    }

    /** `start`: schedule the stream, then ask FSEvents to start it
        (`startAccepted` is its answer); only then mark it started and build
        the index, whose records are discarded. */
    method Start(startAccepted: bool, fs: FileSystem)
      returns (r: Result<(), Failure>, ghost built: Result<seq<Change>, Failure>, ghost orders: seq<seq<Name>>)
      modifies this, index
      ensures Valid() && scheduled && started == (old(started) || startAccepted)
      ensures stream == old(stream)
      ensures calls == old(calls) + [ScheduleWithRunLoop(stream), StartStream(stream)]
      ensures !startAccepted ==> r == Err(StartFailed) && index.index == old(index.index)
      ensures startAccepted ==>
        && RescanOutcome(old(index.index), index.index, index.root, true, fs, built, orders)
        && (r.Ok? <==> built.Ok?)
        && (r.Err? ==> r.error == built.error)
    {
      calls := calls + [ScheduleWithRunLoop(stream)];
      scheduled := true;
      calls := calls + [StartStream(stream)];
      if !startAccepted {
        return Err(StartFailed), Err(StartFailed), [];
      }
      started := true;
      var records;
      records, orders := index.Build(fs);
      built := records;
      r := if records.Ok? then Ok(()) else Err(records.error);
    }

    /** `destroy`: stop the stream if started, invalidate it if scheduled,
        release it, and drop the handle. */
    method Destroy()
      modifies this
      ensures Valid() && !started && !scheduled && stream == None
      ensures calls == old(calls)
        + (if old(started) then [StopStream(old(stream))] else [])
        + (if old(scheduled) then [InvalidateStream(old(stream))] else [])
        + [ReleaseStream(old(stream))]
    {
      var ref := stream;
      if started {
        calls := calls + [StopStream(ref)];
        started := false;
      }
      if scheduled {
        calls := calls + [InvalidateStream(ref)];
        scheduled := false;
      }
      calls := calls + [ReleaseStream(ref)];
      stream := None;
    }

    /** `_fsevents_callback`: rescan each reported path non-recursively and
        pass each record to the callback, when there is one. `delivered` is
        what the callback received, in order; `states[i]` is the index before
        the `i`-th rescan and `results[i]` its records. When a rescan raises,
        the callback has received the records of the rescans before it, and
        `orders` ends with the failing rescan's iteration order. */
    method OnEvents(eventPaths: seq<Path>, realpath: Path -> Path, fs: FileSystem)
      returns (r: Result<seq<Change>, Failure>, delivered: seq<Change>, ghost states: seq<Index>,
               ghost results: seq<seq<Change>>, ghost orders: seq<seq<seq<Name>>>)
      modifies index
      ensures started == old(started) && scheduled == old(scheduled) && stream == old(stream)
      ensures UnchangedOutside(old(index.index), index.index, set p | p in eventPaths :: realpath(p))
      ensures delivered == (if hasCallback then Flatten(results) else [])
      ensures states != [] && states[0] == old(index.index)
      ensures r.Ok? ==>
        && RescansEach(index.root, eventPaths, realpath, fs, states, results, orders)
        && states[|eventPaths|] == index.index
        && r.value == delivered
      ensures r.Err? ==>
        && |results| < |eventPaths| && |orders| == |results| + 1
        && RescansEach(index.root, eventPaths[..|results|], realpath, fs, states, results, orders[..|results|])
        && RescanRaises(index.root, eventPaths[|results|], realpath, fs, states[|results|], index.index, r, orders[|results|])
    {
      delivered := [];
      states, results, orders := [index.index], [], [];
      ghost var canonical := set p | p in eventPaths :: realpath(p);
      ghost var touched: set<Path> := {};
      var i := 0;
      while i < |eventPaths|
        invariant 0 <= i <= |eventPaths|
        invariant RescansEach(index.root, eventPaths[..i], realpath, fs, states, results, orders)
        invariant states[0] == old(index.index) && states[i] == index.index
        invariant delivered == (if hasCallback then Flatten(results) else [])
        invariant touched <= canonical
        invariant UnchangedOutside(old(index.index), index.index, touched)
      {
        ghost var before := index.index;
        var rs, o := index.Rescan(eventPaths[i], false, realpath, fs);
        assert UnchangedOutside(old(index.index), index.index, touched + {realpath(eventPaths[i])}) by {
          if index.root <= realpath(eventPaths[i]) {
            NonRecursiveRescanIsLocal(before, index.index, realpath(eventPaths[i]), fs, rs, o);
          }
          UnchangedOutsideGrow(old(index.index), before, index.index, touched, realpath(eventPaths[i]));
        }
        touched := touched + {realpath(eventPaths[i])};
        if rs.Err? {
          UnchangedOutsideWiden(old(index.index), index.index, touched, canonical);
          assert (orders + [o])[..i] == orders;
          return Err(rs.error), delivered, states, results, orders + [o];
        }
        if hasCallback {
          delivered := delivered + rs.value;
        }
        RescansEachSnoc(index.root, eventPaths, i, realpath, fs, states, results, orders, index.index, rs.value, o);
        states, results, orders := states + [index.index], results + [rs.value], orders + [o];
        i := i + 1;
      }
      assert eventPaths[..i] == eventPaths;
      UnchangedOutsideWiden(old(index.index), index.index, touched, canonical);
      r := Ok(delivered);
    }
  }

  /** The whole of `_Stream.__init__`: create the stream, then `start` it.
      When the start is refused, `__init__` raises and the caller never sees
      the object; `r` is then the error. */
  method OpenStream(path: Path, hasCallback: bool, ref: StreamRef, realpath: Path -> Path,
                    startAccepted: bool, fs: FileSystem)
    returns (s: Stream, r: Result<(), Failure>, ghost built: Result<seq<Change>, Failure>, ghost orders: seq<seq<Name>>)
    ensures fresh(s) && fresh(s.index)
    ensures s.path == path && s.hasCallback == hasCallback && s.stream == Some(ref)
    ensures s.Valid() && s.scheduled && s.started == startAccepted
    ensures s.calls == [CreateStream(path), ScheduleWithRunLoop(Some(ref)), StartStream(Some(ref))]
    ensures s.index.root == realpath(path)
    ensures !startAccepted ==> r == Err(StartFailed) && s.index.index == map[]
    ensures startAccepted ==>
      && RescanOutcome(map[], s.index.index, s.index.root, true, fs, built, orders)
      && (r.Ok? <==> built.Ok?)
      && (r.Err? ==> r.error == built.error)
  {
    s := new Stream(path, hasCallback, ref, realpath);
    r, built, orders := s.Start(startAccepted, fs);
  }

  /** `Watcher.changes` and `next_change`. The records the stream callbacks
      append while the run loop runs are the input `arrived`. */
  class Watcher {
    var changes: seq<Change>
    ghost var loopRuns: nat

    constructor()
      ensures changes == [] && loopRuns == 0
    {
      changes := [];
      loopRuns := 0;
    }

    /** The callback `lambda path, what: self.changes.append((path, what))`. */
    method Record(c: Change)
      modifies this
      ensures changes == old(changes) + [c] && loopRuns == old(loopRuns)
    {
      changes := changes + [c];
    }

    /** `next_change`: with changes pending, pop the most recent one without
        entering the run loop; otherwise run the loop (during which `arrived`
        is appended) and pop the most recent change, or return `None`. */
    method NextChange(arrived: seq<Change>) returns (r: Option<Change>)
      modifies this
      ensures old(changes) != [] ==>
        && r == Some(old(changes)[|old(changes)| - 1])
        && changes == old(changes)[..|old(changes)| - 1]
        && loopRuns == old(loopRuns)
      ensures old(changes) == [] ==>
        && loopRuns == old(loopRuns) + 1
        && (arrived == [] ==> r == None && changes == [])
        && (arrived != [] ==> r == Some(arrived[|arrived| - 1]) && changes == arrived[..|arrived| - 1])
    {
      if changes != [] {
        r := Some(changes[|changes| - 1]);
        changes := changes[..|changes| - 1];
        return;
      }
      loopRuns := loopRuns + 1;
      changes := changes + arrived;
      if changes != [] {
        r := Some(changes[|changes| - 1]);
        changes := changes[..|changes| - 1];
      } else {
        r := None;
      }
    }
  }
}
