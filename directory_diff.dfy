/** The per-directory diff that `FileModificationIndex._get_changes`
    (fswatcher/_mac_fsevents.py) performs, stated as pure functions over a
    fresh listing and the stored snapshot, and the properties of that diff.

    A listing is a sequence of entries in the order the directory was read;
    each entry carries the outcome of `os.stat` on it: a stat result, ENOENT
    (the entry vanished between listing and stat), or any other OS error. */
module DirectoryDiff {
  import opened Paths

  /** `st_mtime` is a Python float; the code only compares it with `!=`. */
  type MTime = real

  /** One directory's snapshot: entry name to last-seen modification time. */
  type Contents = map<Name, MTime>

  datatype Kind = Added | Modified | Removed

  /** A change record `(path, what)`. */
  datatype Change = Change(path: Path, kind: Kind)

  datatype Stat = Stat(mtime: MTime, isDir: bool)

  /** Outcome of `os.stat`: success, ENOENT, or another errno (which is re-raised). */
  datatype Probe = Found(st: Stat) | NoEntry | StatFailed

  datatype Entry = Entry(name: Name, probe: Probe)

  predicate NoFault(entries: seq<Entry>) {
    forall i :: 0 <= i < |entries| ==> !entries[i].probe.StatFailed?
  }

  /** Index of the first entry whose stat raises an error other than ENOENT,
      or `|entries|` when there is none. */
  function FirstFault(entries: seq<Entry>): (k: nat)
    ensures k <= |entries| && NoFault(entries[..k])
    ensures k < |entries| ==> entries[k].probe.StatFailed?
  {
    if entries == [] then 0
    else if entries[0].probe.StatFailed? then 0
    else
      var k' := FirstFault(entries[1..]);
      assert entries[..1 + k'] == [entries[0]] + entries[1..][..k'];
      1 + k'
  }

  /** The first fault is the position where a clean prefix ends at a failed
      stat, or the end of a clean listing. */
  lemma FirstFaultAt(entries: seq<Entry>, i: nat)
    requires i <= |entries| && NoFault(entries[..i])
    requires i < |entries| ==> entries[i].probe.StatFailed?
    ensures FirstFault(entries) == i
  {
    var k := FirstFault(entries);
    assert forall j :: 0 <= j < i ==> !entries[j].probe.StatFailed? by {
      forall j | 0 <= j < i ensures !entries[j].probe.StatFailed? {
        assert entries[..i][j] == entries[j];
      }
    }
    assert forall j :: 0 <= j < k ==> !entries[j].probe.StatFailed? by {
      forall j | 0 <= j < k ensures !entries[j].probe.StatFailed? {
        assert entries[..k][j] == entries[j];
      }
    }
  }

  /** A listing whose first fault is its end has no fault. */
  lemma CleanWhenNoFirstFault(entries: seq<Entry>)
    requires FirstFault(entries) == |entries|
    ensures NoFault(entries)
  {
    assert entries[..|entries|] == entries;
  }

  /** Directory listings never repeat a name. */
  predicate DistinctNames(entries: seq<Entry>) {
    forall i, j :: 0 <= i < j < |entries| ==> entries[i].name != entries[j].name
  }

  /** Names whose stat succeeded. */
  function PresentNames(entries: seq<Entry>): set<Name> {
    set i | 0 <= i < |entries| && entries[i].probe.Found? :: entries[i].name
  }

  /** Names whose stat succeeded and reported a directory. */
  function DirNames(entries: seq<Entry>): set<Name> {
    set i | 0 <= i < |entries| && entries[i].probe.Found? && entries[i].probe.st.isDir :: entries[i].name
  }

  lemma PresentNamesSnoc(entries: seq<Entry>, e: Entry)
    ensures PresentNames(entries + [e]) == PresentNames(entries) + (if e.probe.Found? then {e.name} else {})
  {
    var s := entries + [e];
    assert forall i :: 0 <= i < |entries| ==> s[i] == entries[i];
    if e.probe.Found? {
      assert s[|entries|] == e;
    }
  }

  /** The fresh snapshot `new_contents`, built entry by entry: each name whose
      stat succeeded, mapped to its fresh mtime. */
  function Snapshot(entries: seq<Entry>): Contents
    decreases |entries|
  {
    if entries == [] then map[]
    else
      var m := Snapshot(entries[..|entries| - 1]);
      var e := entries[|entries| - 1];
      if e.probe.Found? then m[e.name := e.probe.st.mtime] else m
  }

  /** The fresh snapshot holds exactly the names whose stat succeeded. */
  lemma {:induction false} SnapshotKeys(entries: seq<Entry>)
    ensures Snapshot(entries).Keys == PresentNames(entries)
    decreases |entries|
  {
    if entries != [] {
      var pre := entries[..|entries| - 1];
      var e := entries[|entries| - 1];
      assert entries == pre + [e];
      PresentNamesSnoc(pre, e);
      SnapshotKeys(pre);
    }
  }

  /** In a listing without repeated names, the snapshot holds each successfully
      stat'ed entry's own mtime. */
  lemma {:induction false} SnapshotHoldsFreshMTime(entries: seq<Entry>, i: nat)
    requires DistinctNames(entries)
    requires i < |entries| && entries[i].probe.Found?
    ensures entries[i].name in Snapshot(entries)
    ensures Snapshot(entries)[entries[i].name] == entries[i].probe.st.mtime
    decreases |entries|
  {
    var n := |entries| - 1;
    var pre := entries[..n];
    PresentNamesSnoc(pre, entries[n]);
    assert entries == pre + [entries[n]];
    if i < n {
      assert pre[i] == entries[i];
      SnapshotHoldsFreshMTime(pre, i);
    }
  }

  /** What is left of `old_contents` once `entries` are processed: every name
      that was stat'ed successfully has been deleted from it. */
  function Remaining(prior: Contents, entries: seq<Entry>): Contents {
    prior - PresentNames(entries)
  }

  /** The records one entry contributes, given what is left of the prior snapshot
      when it is reached. */
  function Classify(dir: Path, rem: Contents, e: Entry): seq<Change> {
    match e.probe
    case Found(st) =>
      if e.name !in rem then [Change(Join(dir, e.name), Added)]
      else if !st.isDir && rem[e.name] != st.mtime then [Change(Join(dir, e.name), Modified)]
      else []
    case _ => []
  }

  /** The ADDED and MODIFIED records of one pass, in listing order. */
  function Front(dir: Path, prior: Contents, entries: seq<Entry>): seq<Change>
    decreases |entries|
  {
    if entries == [] then []
    else
      var pre := entries[..|entries| - 1];
      Front(dir, prior, pre) + Classify(dir, Remaining(prior, pre), entries[|entries| - 1])
  }

  /** The REMOVED records, one per name of `order`. */
  function Removals(dir: Path, order: seq<Name>): seq<Change>
    decreases |order|
  {
    if order == [] then []
    else Removals(dir, order[..|order| - 1]) + [Change(Join(dir, order[|order| - 1]), Removed)]
  }

  /** Processing an entry whose stat reported ENOENT changes nothing. */
  lemma ScanVanished(dir: Path, prior: Contents, pre: seq<Entry>, e: Entry)
    requires e.probe.NoEntry? && NoFault(pre)
    ensures NoFault(pre + [e])
    ensures Snapshot(pre + [e]) == Snapshot(pre)
    ensures Remaining(prior, pre + [e]) == Remaining(prior, pre)
    ensures Front(dir, prior, pre + [e]) == Front(dir, prior, pre)
  {
    assert (pre + [e])[..|pre|] == pre;
    PresentNamesSnoc(pre, e);
  }

  /** Processing an entry whose stat succeeded: the fresh snapshot gains it,
      the leftover prior snapshot loses it, and its classification is appended. */
  lemma ScanFound(dir: Path, prior: Contents, pre: seq<Entry>, e: Entry)
    requires e.probe.Found? && NoFault(pre)
    ensures NoFault(pre + [e])
    ensures Snapshot(pre + [e]) == Snapshot(pre)[e.name := e.probe.st.mtime]
    ensures Remaining(prior, pre + [e]) == Remaining(prior, pre) - {e.name}
    ensures Front(dir, prior, pre + [e]) == Front(dir, prior, pre) + Classify(dir, Remaining(prior, pre), e)
  {
    assert (pre + [e])[..|pre|] == pre;
    PresentNamesSnoc(pre, e);
  }

  /** `order` lists the names of `names` once each (Python's dict iteration
      order over the leftover entries is unspecified). */
  ghost predicate Enumerates(order: seq<Name>, names: set<Name>) {
    && (forall i, j :: 0 <= i < j < |order| ==> order[i] != order[j])
    && (forall n :: n in order <==> n in names)
  }

  /** The records `_get_changes` returns when no stat fails with an error
      other than ENOENT: ADDED/MODIFIED in listing order, then REMOVED for each
      leftover name in the order the leftover dict is iterated. */
  function Diff(dir: Path, prior: Contents, entries: seq<Entry>, order: seq<Name>): seq<Change> {
    Front(dir, prior, entries) + Removals(dir, order)
  }

  /** An enumeration has exactly as many elements as the set it enumerates:
      one REMOVED record per leftover name. */
  lemma {:induction false} EnumerationSize(order: seq<Name>, names: set<Name>)
    requires Enumerates(order, names)
    ensures |order| == |names|
    decreases |order|
  {
    if order != [] {
      var n := |order| - 1;
      var last := order[n];
      assert last in names;
      assert forall x :: x in order[..n] ==> x != last by {
        forall x | x in order[..n] ensures x != last {
          var k :| 0 <= k < n && order[..n][k] == x;
          assert order[k] == x;
        }
      }
      assert forall x :: x in order[..n] <==> x in names - {last} by {
        forall x ensures x in order[..n] <==> x in names - {last} {
          if x in names - {last} {
            assert x in order;
            var k :| 0 <= k < |order| && order[k] == x;
            assert k != n;
            assert order[..n][k] == x;
          }
        }
      }
      EnumerationSize(order[..n], names - {last});
    }
  }

  lemma {:induction false} RemovalsAreRemoved(dir: Path, order: seq<Name>)
    ensures |Removals(dir, order)| == |order|
    ensures forall i :: 0 <= i < |order| ==> Removals(dir, order)[i] == Change(Join(dir, order[i]), Removed)
    decreases |order|
  {
    if order != [] {
      RemovalsAreRemoved(dir, order[..|order| - 1]);
    }
  }

  lemma {:induction false} FrontHasNoRemoved(dir: Path, prior: Contents, entries: seq<Entry>)
    ensures forall c :: c in Front(dir, prior, entries) ==> c.kind != Removed
    decreases |entries|
  {
    if entries != [] {
      FrontHasNoRemoved(dir, prior, entries[..|entries| - 1]);
    }
  }

  /** Within one pass every ADDED or MODIFIED record comes before every
      REMOVED record. */
  lemma RemovedComeLast(dir: Path, prior: Contents, entries: seq<Entry>, order: seq<Name>)
    ensures var d := Diff(dir, prior, entries, order);
      forall i, j :: 0 <= i < j < |d| && d[i].kind == Removed ==> d[j].kind == Removed
  {
    var f := Front(dir, prior, entries);
    var r := Removals(dir, order);
    FrontHasNoRemoved(dir, prior, entries);
    RemovalsAreRemoved(dir, order);
    var d := f + r;
    assert forall i :: 0 <= i < |f| ==> d[i].kind != Removed by {
      forall i | 0 <= i < |f| ensures d[i].kind != Removed {
        assert d[i] == f[i] && f[i] in f;
      }
    }
    assert forall k :: |f| <= k < |d| ==> d[k].kind == Removed by {
      forall k | |f| <= k < |d| ensures d[k].kind == Removed {
        assert d[k] == r[k - |f|];
      }
    }
  }

  /** One pass reports exactly one REMOVED record per leftover name. */
  lemma OneRemovalPerLeftover(dir: Path, prior: Contents, entries: seq<Entry>, order: seq<Name>)
    requires Enumerates(order, Remaining(prior, entries).Keys)
    ensures |Removals(dir, order)| == |prior.Keys - PresentNames(entries)|
    ensures forall n :: n in prior && n !in PresentNames(entries) ==>
      Change(Join(dir, n), Removed) in Removals(dir, order)
  {
    RemovalsAreRemoved(dir, order);
    EnumerationSize(order, Remaining(prior, entries).Keys);
    forall n | n in prior && n !in PresentNames(entries)
      ensures Change(Join(dir, n), Removed) in Removals(dir, order)
    {
      assert n in order;
      var k :| 0 <= k < |order| && order[k] == n;
      assert Removals(dir, order)[k] == Change(Join(dir, n), Removed);
    }
  }

  /** Reference definition: classify each entry against the whole prior snapshot,
      ignoring what earlier entries deleted from it. */
  function FrontAgainst(dir: Path, prior: Contents, entries: seq<Entry>): seq<Change>
    decreases |entries|
  {
    if entries == [] then []
    else FrontAgainst(dir, prior, entries[..|entries| - 1]) + Classify(dir, prior, entries[|entries| - 1])
  }

  /** With no repeated names, deleting from `old_contents` while scanning does
      not change any classification. */
  lemma {:induction false} FrontIgnoresDeletions(dir: Path, prior: Contents, entries: seq<Entry>)
    requires DistinctNames(entries)
    ensures Front(dir, prior, entries) == FrontAgainst(dir, prior, entries)
    decreases |entries|
  {
    if entries != [] {
      var n := |entries| - 1;
      var pre := entries[..n];
      var e := entries[n];
      assert e.name !in PresentNames(pre) by {
        forall k | 0 <= k < n ensures pre[k].name != e.name {
          assert pre[k] == entries[k];
        }
      }
      assert Classify(dir, Remaining(prior, pre), e) == Classify(dir, prior, e);
      FrontIgnoresDeletions(dir, prior, pre);
    }
  }

  lemma {:induction false} FrontAgainstMembers(dir: Path, prior: Contents, entries: seq<Entry>, c: Change)
    ensures c in FrontAgainst(dir, prior, entries) <==>
      exists i :: 0 <= i < |entries| && c in Classify(dir, prior, entries[i])
    decreases |entries|
  {
    if entries != [] {
      var n := |entries| - 1;
      var pre := entries[..n];
      FrontAgainstMembers(dir, prior, pre, c);
      var f := FrontAgainst(dir, prior, entries);
      assert f == FrontAgainst(dir, prior, pre) + Classify(dir, prior, entries[n]);
      if c in f {
        if c in FrontAgainst(dir, prior, pre) {
          var i :| 0 <= i < |pre| && c in Classify(dir, prior, pre[i]);
          assert entries[i] == pre[i];
          assert 0 <= i < |entries| && c in Classify(dir, prior, entries[i]);
        } else {
          assert c in Classify(dir, prior, entries[n]);
        }
      } else {
        forall i | 0 <= i < |entries| ensures c !in Classify(dir, prior, entries[i]) {
          if i < n {
            assert entries[i] == pre[i];
          }
        }
      }
    }
  }

  /** Reference (the "compare two full snapshots" definition): ADDED for names
      only in the current snapshot, MODIFIED for non-directories in both whose
      mtime differs, REMOVED for names only in the prior snapshot. */
  function SnapshotComparison(dir: Path, prior: Contents, current: Contents, dirs: set<Name>): set<Change> {
    (set n | n in current && n !in prior :: Change(Join(dir, n), Added))
    + (set n | n in current && n in prior && n !in dirs && prior[n] != current[n] :: Change(Join(dir, n), Modified))
    + (set n | n in prior && n !in current :: Change(Join(dir, n), Removed))
  }

  function Elements(s: seq<Change>): set<Change> {
    set c | c in s
  }

  /** Every record an entry yields against the whole prior snapshot is in the
      reference comparison. */
  lemma ClassifiedIsCompared(dir: Path, prior: Contents, entries: seq<Entry>, i: nat)
    requires DistinctNames(entries) && i < |entries|
    ensures forall c :: c in Classify(dir, prior, entries[i]) ==>
      c in SnapshotComparison(dir, prior, Snapshot(entries), DirNames(entries))
  {
    var e := entries[i];
    if e.probe.Found? {
      SnapshotHoldsFreshMTime(entries, i);
      assert e.name in PresentNames(entries);
      forall k | 0 <= k < |entries| && entries[k].name == e.name ensures k == i {
      }
      assert e.name in DirNames(entries) <==> e.probe.st.isDir;
    }
  }

  /** Every ADDED or MODIFIED record of the reference comparison is yielded
      by some entry. */
  lemma ComparedIsClassified(dir: Path, prior: Contents, entries: seq<Entry>, c: Change) returns (i: nat)
    requires DistinctNames(entries)
    requires c in SnapshotComparison(dir, prior, Snapshot(entries), DirNames(entries)) && c.kind != Removed
    ensures i < |entries| && c in Classify(dir, prior, entries[i])
  {
    var current := Snapshot(entries);
    SnapshotKeys(entries);
    var n :| n in current && c.path == Join(dir, n)
      && (c.kind == Added ==> n !in prior)
      && (c.kind == Modified ==> n in prior && n !in DirNames(entries) && prior[n] != current[n]);
    assert n in PresentNames(entries);
    i :| 0 <= i < |entries| && entries[i].probe.Found? && entries[i].name == n;
    SnapshotHoldsFreshMTime(entries, i);
    assert entries[i].probe.st.isDir ==> n in DirNames(entries);
  }

  lemma DiffWithinComparison(dir: Path, prior: Contents, entries: seq<Entry>, order: seq<Name>)
    requires DistinctNames(entries)
    requires Enumerates(order, Remaining(prior, entries).Keys)
    ensures forall c :: c in Diff(dir, prior, entries, order) ==>
      c in SnapshotComparison(dir, prior, Snapshot(entries), DirNames(entries))
  {
    var f := Front(dir, prior, entries);
    var r := Removals(dir, order);
    FrontIgnoresDeletions(dir, prior, entries);
    RemovalsAreRemoved(dir, order);
    forall c | c in f ensures c in SnapshotComparison(dir, prior, Snapshot(entries), DirNames(entries)) {
      FrontAgainstMembers(dir, prior, entries, c);
      var i :| 0 <= i < |entries| && c in Classify(dir, prior, entries[i]);
      ClassifiedIsCompared(dir, prior, entries, i);
    }
    SnapshotKeys(entries);
    forall c | c in r ensures c in SnapshotComparison(dir, prior, Snapshot(entries), DirNames(entries)) {
      var k :| 0 <= k < |r| && r[k] == c;
      assert order[k] in order;
    }
  }

  lemma ComparedRemovalListed(dir: Path, prior: Contents, entries: seq<Entry>, order: seq<Name>, c: Change)
    requires Enumerates(order, Remaining(prior, entries).Keys)
    requires c in SnapshotComparison(dir, prior, Snapshot(entries), DirNames(entries)) && c.kind == Removed
    ensures c in Removals(dir, order)
  {
    var n :| n in prior && n !in Snapshot(entries) && c == Change(Join(dir, n), Removed);
    SnapshotKeys(entries);
    OneRemovalPerLeftover(dir, prior, entries, order);
  }

  lemma ComparisonWithinDiff(dir: Path, prior: Contents, entries: seq<Entry>, order: seq<Name>)
    requires DistinctNames(entries)
    requires Enumerates(order, Remaining(prior, entries).Keys)
    ensures forall c :: c in SnapshotComparison(dir, prior, Snapshot(entries), DirNames(entries)) ==>
      c in Diff(dir, prior, entries, order)
  {
    var f := Front(dir, prior, entries);
    var r := Removals(dir, order);
    FrontIgnoresDeletions(dir, prior, entries);
    forall c | c in SnapshotComparison(dir, prior, Snapshot(entries), DirNames(entries)) ensures c in f + r {
      if c.kind == Removed {
        ComparedRemovalListed(dir, prior, entries, order, c);
      } else {
        var i := ComparedIsClassified(dir, prior, entries, c);
        FrontAgainstMembers(dir, prior, entries, c);
      }
    }
  }

  /** One pass over a listing yields exactly the records of a naive comparison
      of the prior snapshot with the fresh one (directories never MODIFIED). */
  lemma DiffIsSnapshotComparison(dir: Path, prior: Contents, entries: seq<Entry>, order: seq<Name>)
    requires NoFault(entries) && DistinctNames(entries)
    requires Enumerates(order, Remaining(prior, entries).Keys)
    ensures Elements(Diff(dir, prior, entries, order))
         == SnapshotComparison(dir, prior, Snapshot(entries), DirNames(entries))
  {
    DiffWithinComparison(dir, prior, entries, order);
    ComparisonWithinDiff(dir, prior, entries, order);
  }

  /** Scanning against a snapshot that already holds every fresh mtime yields
      no ADDED or MODIFIED record. */
  lemma {:induction false} QuietWhenUnchanged(dir: Path, prior: Contents, entries: seq<Entry>)
    requires forall i :: 0 <= i < |entries| && entries[i].probe.Found? ==>
      entries[i].name in prior && prior[entries[i].name] == entries[i].probe.st.mtime
    ensures FrontAgainst(dir, prior, entries) == []
    decreases |entries|
  {
    if entries != [] {
      QuietWhenUnchanged(dir, prior, entries[..|entries| - 1]);
    }
  }

  /** Idempotence: a second pass over the same listing, against the snapshot
      the first pass stored, reports nothing. */
  lemma SecondPassIsQuiet(dir: Path, entries: seq<Entry>)
    requires DistinctNames(entries)
    ensures Front(dir, Snapshot(entries), entries) == []
    ensures Remaining(Snapshot(entries), entries) == map[]
  {
    var snap := Snapshot(entries);
    forall i | 0 <= i < |entries| && entries[i].probe.Found?
      ensures entries[i].name in snap && snap[entries[i].name] == entries[i].probe.st.mtime
    {
      SnapshotHoldsFreshMTime(entries, i);
    }
    QuietWhenUnchanged(dir, snap, entries);
    FrontIgnoresDeletions(dir, snap, entries);
    SnapshotKeys(entries);
  }
}
