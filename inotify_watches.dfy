/** The Linux backend's watch registry: the module-level `watches` dict of
    _inotify.py, which `add_watch` fills, `remove_watch` empties, and the
    dispatch loop of `watch` reads.

    The kernel is an input: `inotify_add_watch` is a function from a path and
    a mask to a watch descriptor (or -1), and `os.walk` is the sequence of
    `(dirpath, dirnames)` pairs it would yield. Callbacks are compared with
    `==`; the registry records which callback is invoked with which path. */
module InotifyWatches {
  import opened Results
  import opened Paths
  import opened InotifyEvents

  /** A callback. `remove_watch` compares callbacks with `==`, under which two
      accesses to the same bound method are equal; one number stands for one
      class of equal callbacks. */
  type Callback = nat

  /** The `Struct(path=..., callback=...)` that one `add_watch` shares among
      all the descriptors it registers. */
  datatype WatchInfo = WatchInfo(path: Path, callback: Callback)

  /** `watchinfo.callback(watchinfo.path)`. */
  datatype Invocation = Invocation(callback: Callback, path: Path)

  /** The `(dirpath, dirnames)` part of one `os.walk` triple; file names are
      not used here. */
  datatype SubdirStep = SubdirStep(dirpath: Path, dirnames: seq<Name>)

  /** A watch descriptor handed out by the kernel. */
  type Wd = w: int | w >= 0

  /** `inotify_add_watch(fd, path, mask)` returns a descriptor, or -1 on error. */
  type AddResult = w: int | w >= -1

  type Kernel = (Path, bv32) -> AddResult

  /** The exceptions that reach the caller: `_inotify_add_watch` failing,
      the `assert` in `remove_watch`, a `KeyError` for an unregistered
      descriptor, and `struct.error` from the parser. */
  datatype Failure = AddWatchFailed(path: Path) | NoMatchingWatch | UnknownWatch(wd: int) | BadRecord

  /** `os.path.join(dir, each) for each in names`. */
  function JoinAll(dir: Path, names: seq<Name>): (r: seq<Path>)
    ensures |r| == |names|
  {
    seq(|names|, i requires 0 <= i < |names| => Join(dir, names[i]))
  }

  /** Every subdirectory the walk lists, as a path, in walk order. */
  function Subdirs(steps: seq<SubdirStep>): seq<Path>
  {
    if steps == [] then []
    else
      var n := |steps| - 1;
      Subdirs(steps[..n]) + JoinAll(steps[n].dirpath, steps[n].dirnames)
  }

  /** `watchdirs`: the root followed by every subdirectory of the walk. */
  function WatchDirs(root: Path, steps: seq<SubdirStep>): seq<Path> {
    [root] + Subdirs(steps)
  }

  /** The paths `add_watch` actually hands to the kernel: every entry of
      `watchdirs` joined once more onto `path`, the loop variable the walk
      left behind (its last `dirpath`). After an empty walk `path` was never
      bound and the call raises `UnboundLocalError` (`None`). */
  function AsWrittenWatchPaths(root: Path, steps: seq<SubdirStep>): (r: Option<seq<Path>>)
    ensures r.Some? <==> steps != []
    ensures r.Some? ==> |r.value| == |WatchDirs(root, steps)|
    ensures r.Some? ==> forall i :: 0 <= i < |r.value| ==>
      var dirs := WatchDirs(root, steps);
      IsAbsolute(dirs[i]) ==> r.value[i] == dirs[i]
  {
    if steps == [] then None
    else Some(JoinAll(steps[|steps| - 1].dirpath, WatchDirs(root, steps)))
  }

  /** Position of the first directory the kernel refuses, or `|dirs|`. */
  function FirstRejected(dirs: seq<Path>, kernel: Kernel): (k: nat)
    ensures k <= |dirs|
    ensures forall i :: 0 <= i < k ==> kernel(dirs[i], WATCH_FLAGS) != -1
    ensures k < |dirs| ==> kernel(dirs[k], WATCH_FLAGS) == -1
  {
    if dirs == [] then 0
    else if kernel(dirs[0], WATCH_FLAGS) == -1 then 0
    else 1 + FirstRejected(dirs[1..], kernel)
  }

  /** `FirstRejected` is the one position that fits its description. */
  lemma FirstRejectedAt(dirs: seq<Path>, kernel: Kernel, i: nat)
    requires i <= |dirs|
    requires forall j :: 0 <= j < i ==> kernel(dirs[j], WATCH_FLAGS) != -1
    requires i < |dirs| ==> kernel(dirs[i], WATCH_FLAGS) == -1
    ensures FirstRejected(dirs, kernel) == i
  {
  }

  /** The descriptors the kernel hands out for `dirs`. */
  ghost function Wds(dirs: seq<Path>, kernel: Kernel): set<Wd> {
    set d | d in dirs && kernel(d, WATCH_FLAGS) != -1 :: kernel(d, WATCH_FLAGS) as Wd
  }

  /** Every descriptor of `wds` mapped to `info`, over `watches`. */
  function Overlay(watches: map<Wd, WatchInfo>, wds: set<Wd>, info: WatchInfo): map<Wd, WatchInfo> {
    watches + map w | w in wds :: info
  }

  /** The kernel accepted every directory of `dirs`. */
  predicate Accepted(dirs: seq<Path>, kernel: Kernel) {
    forall i :: 0 <= i < |dirs| ==> kernel(dirs[i], WATCH_FLAGS) != -1
  }

  /** `watches[wd] = watch_info` for each directory in turn. */
  function Register(watches: map<Wd, WatchInfo>, dirs: seq<Path>, kernel: Kernel, info: WatchInfo): map<Wd, WatchInfo>
    requires Accepted(dirs, kernel)
  {
    if dirs == [] then watches
    else
      var n := |dirs| - 1;
      Register(watches, dirs[..n], kernel, info)[kernel(dirs[n], WATCH_FLAGS) := info]
  }

  /** The registry without the entries whose info is `info`. */
  function Unwatch(watches: map<Wd, WatchInfo>, info: WatchInfo): map<Wd, WatchInfo> {
    map w | w in watches && watches[w] != info :: watches[w]
  }

  /** The outcome of dispatching `events` against `watches`: each event in
      turn calls its watch's callback with the path given to `add_watch`,
      until an event whose descriptor is not registered raises `KeyError`. */
  ghost predicate Dispatches(watches: map<Wd, WatchInfo>, events: seq<WatchEvent>,
                             calls: seq<Invocation>, r: Result<(), Failure>)
  {
    && |calls| <= |events|
    && (forall i :: 0 <= i < |calls| ==>
          events[i].wd in watches
          && calls[i] == Invocation(watches[events[i].wd].callback, watches[events[i].wd].path))
    && (r.Ok? <==> |calls| == |events|)
    && (r.Err? ==> events[|calls|].wd !in watches && r.error == UnknownWatch(events[|calls|].wd))
  }

  /** The first loop of `add_watch`: the root, then each step's
      subdirectories joined onto that step's directory. */
  method CollectWatchDirs(root: Path, steps: seq<SubdirStep>) returns (watchdirs: seq<Path>)
    ensures watchdirs == WatchDirs(root, steps)
  {
    watchdirs := [root];
    var s := 0;
    while s < |steps|
      invariant s <= |steps|
      invariant watchdirs == WatchDirs(root, steps[..s])
    {
      assert steps[..s + 1][..s] == steps[..s];
      watchdirs := watchdirs + JoinAll(steps[s].dirpath, steps[s].dirnames);
      s := s + 1;
    }
    assert steps[..s] == steps;
  }

  /** The module-level `watches` dict. */
  class Registry {
    var watches: map<Wd, WatchInfo>

    constructor()
      ensures watches == map[]
    {
      watches := map[];
    }

    /** `add_watch(root, callback)`, registering the directory list the code
        evidently means (see `AsWrittenWatchPaths` for what line 92 does).
        Each directory is registered as soon as the kernel accepts it, so a
        refusal leaves the earlier registrations in place. */
    method AddWatch(root: Path, callback: Callback, steps: seq<SubdirStep>, kernel: Kernel)
      returns (r: Result<(), Failure>)
      modifies this
      ensures var dirs := WatchDirs(root, steps);
        var k := FirstRejected(dirs, kernel);
        && watches == Register(old(watches), dirs[..k], kernel, WatchInfo(root, callback))
        && (r.Ok? <==> k == |dirs|)
        && (r.Err? ==> r.error == AddWatchFailed(dirs[k]))
    {
      var info := WatchInfo(root, callback);
      var watchdirs := CollectWatchDirs(root, steps);
      var i := 0;
      while i < |watchdirs|
        invariant i <= |watchdirs|
        invariant forall j :: 0 <= j < i ==> kernel(watchdirs[j], WATCH_FLAGS) != -1
        invariant watches == Register(old(watches), watchdirs[..i], kernel, info)
      {
        var wd := kernel(watchdirs[i], WATCH_FLAGS);
        if wd == -1 {
          FirstRejectedAt(watchdirs, kernel, i);
          return Err(AddWatchFailed(watchdirs[i]));
        }
        assert watchdirs[..i + 1][..i] == watchdirs[..i];
        watches := watches[wd := info];
        i := i + 1;
      }
      assert watchdirs[..i] == watchdirs;
      FirstRejectedAt(watchdirs, kernel, i);
      return Ok(());
    }

    /** `remove_watch(root, callback)`: collects the descriptors registered
        with exactly this path and callback, fails its assertion when there
        are none, and otherwise deletes them all. */
    method RemoveWatch(root: Path, callback: Callback) returns (r: Result<(), Failure>)
      modifies this
      ensures var info := WatchInfo(root, callback);
        && (r.Ok? <==> info in old(watches).Values)
        && (r.Err? ==> r.error == NoMatchingWatch && watches == old(watches))
        && (r.Ok? ==> watches == Unwatch(old(watches), info))
    {
      var info := WatchInfo(root, callback);
      var matchingKeys: seq<Wd> := [];
      var pending := watches.Keys;
      while pending != {}
        invariant pending <= watches.Keys
        invariant forall w :: w in matchingKeys <==> w in watches && w !in pending && watches[w] == info
        decreases pending
      {
        var wd :| wd in pending;
        if watches[wd] == info {
          matchingKeys := matchingKeys + [wd];
        }
        pending := pending - {wd};
      }
      if |matchingKeys| == 0 {
        assert forall w :: w in watches ==> watches[w] != info;
        return Err(NoMatchingWatch);
      }
      assert matchingKeys[0] in matchingKeys;
      ghost var before := watches;
      var i := 0;
      while i < |matchingKeys|
        invariant i <= |matchingKeys|
        invariant forall w :: w in watches <==> w in before && w !in matchingKeys[..i]
        invariant forall w :: w in watches ==> watches[w] == before[w]
      {
        assert matchingKeys[..i + 1] == matchingKeys[..i] + [matchingKeys[i]];
        watches := watches - {matchingKeys[i]};
        i := i + 1;
      }
      assert matchingKeys[..i] == matchingKeys;
      forall w
        ensures w in watches <==> w in Unwatch(before, info)
      {
      }
      return Ok(());
    }

    /** The inner loop of `watch`: look up each event's descriptor and call
        its callback with the registered root path. */
    method Dispatch(events: seq<WatchEvent>) returns (calls: seq<Invocation>, r: Result<(), Failure>)
      ensures Dispatches(watches, events, calls, r)
    {
      calls := [];
      var i := 0;
      while i < |events|
        invariant i <= |events| && |calls| == i
        invariant forall j :: 0 <= j < i ==>
          events[j].wd in watches
          && calls[j] == Invocation(watches[events[j].wd].callback, watches[events[j].wd].path)
      {
        var wd := events[i].wd;
        if wd !in watches {
          return calls, Err(UnknownWatch(wd));
        }
        var info := watches[wd];
        calls := calls + [Invocation(info.callback, info.path)];
        i := i + 1;
      }
      return calls, Ok(());
    }

    /** One wake-up of `watch`: read the pending records, then dispatch them.
        A malformed buffer fails before any callback runs. */
    method OnReadable(data: seq<byte>) returns (calls: seq<Invocation>, r: Result<(), Failure>)
      ensures Parse(data).Err? ==> calls == [] && r == Err(BadRecord)
      ensures Parse(data).Ok? ==> Dispatches(watches, Parse(data).value, calls, r)
    {
      var events := ReadEvents(data);
      if events.Err? {
        return [], Err(BadRecord);
      }
      calls, r := Dispatch(events.value);
    }
  }

  lemma OverlayInsert(watches: map<Wd, WatchInfo>, wds: set<Wd>, w: Wd, info: WatchInfo)
    ensures Overlay(watches, wds + {w}, info) == Overlay(watches, wds, info)[w := info]
  {
    var lhs := Overlay(watches, wds + {w}, info);
    var rhs := Overlay(watches, wds, info)[w := info];
    assert lhs.Keys == rhs.Keys;
    forall x | x in lhs
      ensures lhs[x] == rhs[x]
    {
    }
  }

  /** Registering directory by directory is the same as mapping all their
      descriptors to the new info at once; other entries keep their info. */
  lemma {:induction false} RegisterOverlays(watches: map<Wd, WatchInfo>, dirs: seq<Path>, kernel: Kernel, info: WatchInfo)
    requires Accepted(dirs, kernel)
    ensures Register(watches, dirs, kernel, info) == Overlay(watches, Wds(dirs, kernel), info)
  {
    if dirs != [] {
      var n := |dirs| - 1;
      RegisterOverlays(watches, dirs[..n], kernel, info);
      assert dirs == dirs[..n] + [dirs[n]];
      var w := kernel(dirs[n], WATCH_FLAGS) as Wd;
      assert Wds(dirs, kernel) == Wds(dirs[..n], kernel) + {w};
      OverlayInsert(watches, Wds(dirs[..n], kernel), w, info);
    }
  }

  /** Removing what one `add_watch` registered leaves the registry as it was
      minus any earlier entry whose descriptor the kernel handed out again
      (inotify returns the existing descriptor for an already-watched
      directory, and the assignment overwrites its info). */
  lemma RemoveAfterAdd(watches: map<Wd, WatchInfo>, dirs: seq<Path>, kernel: Kernel, info: WatchInfo)
    requires Accepted(dirs, kernel)
    ensures var added := Register(watches, dirs, kernel, info);
      && (dirs != [] ==> info in added.Values)
      && Unwatch(added, info) == Unwatch(watches, info) - Wds(dirs, kernel)
  {
    RegisterOverlays(watches, dirs, kernel, info);
    var added := Register(watches, dirs, kernel, info);
    var wds := Wds(dirs, kernel);
    if dirs != [] {
      assert kernel(dirs[0], WATCH_FLAGS) in wds;
    }
    var lhs := Unwatch(added, info);
    var rhs := Unwatch(watches, info) - wds;
    forall w
      ensures w in lhs <==> w in rhs
      ensures w in lhs ==> lhs[w] == rhs[w]
    {
      if w in wds {
        assert added[w] == info;
      }
    }
    assert lhs == rhs;
  }

  /** With fresh descriptors and no earlier watch of the same path and
      callback, `remove_watch` undoes `add_watch` exactly. */
  lemma AddThenRemoveRestores(watches: map<Wd, WatchInfo>, dirs: seq<Path>, kernel: Kernel, info: WatchInfo)
    requires Accepted(dirs, kernel)
    requires info !in watches.Values
    requires Wds(dirs, kernel) !! watches.Keys
    ensures Unwatch(Register(watches, dirs, kernel, info), info) == watches
  {
    RemoveAfterAdd(watches, dirs, kernel, info);
    assert Unwatch(watches, info) == watches;
  }

  /** An event from any directory one `add_watch` registered reaches that
      call's callback with its root path, not the subdirectory's. */
  lemma EventsReportRoot(watches: map<Wd, WatchInfo>, dirs: seq<Path>, kernel: Kernel, info: WatchInfo,
                         events: seq<WatchEvent>, calls: seq<Invocation>, r: Result<(), Failure>)
    requires Accepted(dirs, kernel)
    requires Dispatches(Register(watches, dirs, kernel, info), events, calls, r)
    requires forall i :: 0 <= i < |events| ==> events[i].wd in Wds(dirs, kernel)
    ensures r.Ok? && |calls| == |events|
    ensures forall i :: 0 <= i < |calls| ==> calls[i] == Invocation(info.callback, info.path)
  {
    RegisterOverlays(watches, dirs, kernel, info);
  }

  /** Joining onto an absolute directory yields absolute paths. */
  lemma {:induction false} SubdirsAbsolute(steps: seq<SubdirStep>)
    requires forall s :: 0 <= s < |steps| ==> IsAbsolute(steps[s].dirpath)
    ensures forall i :: 0 <= i < |Subdirs(steps)| ==> IsAbsolute(Subdirs(steps)[i])
  {
    if steps != [] {
      var n := |steps| - 1;
      SubdirsAbsolute(steps[..n]);
      var last := JoinAll(steps[n].dirpath, steps[n].dirnames);
      assert forall i :: 0 <= i < |last| ==> IsAbsolute(last[i]);
    }
  }

  /** For an absolute root walked into absolute directories, joining onto
      the leftover loop variable is harmless: every entry of `watchdirs` is
      absolute and `os.path.join` returns it unchanged. */
  lemma AsWrittenAgreesForAbsoluteRoot(root: Path, steps: seq<SubdirStep>)
    requires IsAbsolute(root) && steps != []
    requires forall s :: 0 <= s < |steps| ==> IsAbsolute(steps[s].dirpath)
    ensures AsWrittenWatchPaths(root, steps) == Some(WatchDirs(root, steps))
  {
    SubdirsAbsolute(steps);
    var dirs := WatchDirs(root, steps);
    var joined := JoinAll(steps[|steps| - 1].dirpath, dirs);
    forall i | 0 <= i < |dirs|
      ensures joined[i] == dirs[i]
    {
      if i > 0 {
        assert dirs[i] == Subdirs(steps)[i - 1];
      }
    }
    assert joined == dirs;
  }

  /** A relative root goes wrong: for `add_watch("w", ...)` over a tree with
      one subdirectory `a`, the kernel is asked for `w/a/w` and `w/a/w/a`
      instead of `w` and `w/a`; an empty walk leaves `path` unbound. */
  lemma RelativeRootMisjoined()
    ensures var steps := [SubdirStep("w", ["a"]), SubdirStep("w/a", [])];
      && WatchDirs("w", steps) == ["w", "w/a"]
      && AsWrittenWatchPaths("w", steps) == Some(["w/a/w", "w/a/w/a"])
    ensures AsWrittenWatchPaths("/w", []) == None
  {
    var steps := [SubdirStep("w", ["a"]), SubdirStep("w/a", [])];
    assert steps[..1] == [SubdirStep("w", ["a"])];
    assert Subdirs(steps[..1][..0]) == [];
    assert Join("w", "a") == "w/a";
    assert JoinAll("w", ["a"]) == ["w/a"];
    assert Subdirs(steps) == ["w/a"];
    assert Join("w/a", "w") == "w/a/w";
    assert Join("w/a", "w/a") == "w/a/w/a";
    assert JoinAll("w/a", ["w", "w/a"]) == ["w/a/w", "w/a/w/a"];
  }
}
