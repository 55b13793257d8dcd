/** The audio library: the set of allowed extensions, the event filter of
    its directory watcher, the rescan that publishes a sorted snapshot of
    episodes, the copy handed to readers, and the debounced refresh and
    once-only close. The directory walk, `os.Stat` and the episode builder
    are inputs: a walk is the sequence of entries `filepath.WalkDir` visits,
    and the builder is what `BuildEpisode(path, root)` returns for each
    path. */
module Library {
  import opened Common
  import opened Text
  import opened Paths
  import opened Models
  import opened Sorting
  import opened Debounce
  import opened Watch

  /** One call of the walk callback: an entry, or the error for a path. */
  datatype WalkEntry = Visit(path: string, isDir: bool) | VisitError(path: string, err: Error)

  /** The lower-cased forms of the configured extensions. */
  ghost function LowerSet(exts: seq<string>): set<string> {
    set i | 0 <= i < |exts| :: ToLower(exts[i])
  }

  /** Fills the extension set the way `NewLibrary` and the server's `New`
      do: each configured extension, lower-cased. */
  method LowerExtensions(exts: seq<string>) returns (allowed: set<string>)
    ensures allowed == LowerSet(exts)
    ensures forall x :: x in allowed <==> exists i :: 0 <= i < |exts| && EqualFold(exts[i], x) && x == ToLower(x)
  {
    allowed := {};
    for i := 0 to |exts|
      invariant allowed == LowerSet(exts[..i])
    {
      assert LowerSet(exts[..i + 1]) == LowerSet(exts[..i]) + {ToLower(exts[i])} by {
        assert forall j :: 0 <= j < i ==> exts[..i + 1][j] == exts[..i][j];
      }
      allowed := allowed + {ToLower(exts[i])};
    }
    assert exts[..|exts|] == exts;
    forall x ensures x in allowed <==> exists i :: 0 <= i < |exts| && EqualFold(exts[i], x) && x == ToLower(x) {
      if x in allowed {
        var i :| 0 <= i < |exts| && ToLower(exts[i]) == x;
        LowerIdempotent(exts[i]);
      }
    }
  }

  /** `isAllowed`: the lower-cased extension of the path is in the set. */
  function IsAllowed(path: string, allowed: set<string>): (b: bool)
    ensures b ==> exists e :: e in allowed && EqualFold(e, Ext(path)) && ToLower(e) == e
  {
    LowerIdempotent(Ext(path));
    ToLower(Ext(path)) in allowed
  }

  /** With the set built from the configured extensions, a path is allowed
      exactly when its extension equals one of them up to case; in
      particular the case of the path never matters. */
  lemma IsAllowedCaseInsensitive(path: string, exts: seq<string>)
    ensures IsAllowed(path, LowerSet(exts)) <==> exists i :: 0 <= i < |exts| && EqualFold(Ext(path), exts[i])
    ensures IsAllowed(ToLower(path), LowerSet(exts)) <==> IsAllowed(path, LowerSet(exts))
  {
    ExtOfLower(path);
    LowerIdempotent(Ext(path));
  }

  /** The event filter of `handleEvent`: a create, write, remove or rename,
      on an allowed file or, for removals and renames, on any path (a
      removed directory has no extension). */
  function WantsRefresh(event: Event, allowed: set<string>): (b: bool)
    ensures b ==> event.ops - {Chmod} != {}
    ensures Remove in event.ops || Rename in event.ops ==> b
  {
    WantsRefreshOps(event.ops);
    && (event.ops * Changes != {})
    && (IsAllowed(event.name, allowed) || event.ops * {Remove, Rename} != {})
  }

  lemma WantsRefreshOps(ops: set<Op>)
    ensures ops * Changes != {} ==> ops - {Chmod} != {}
    ensures Remove in ops || Rename in ops ==> ops * Changes != {} && ops * {Remove, Rename} != {}
  {
    if ops * Changes != {} {
      var op :| op in ops * Changes;
      assert op in ops - {Chmod};
    }
    if Remove in ops { assert Remove in ops * {Remove, Rename}; assert Remove in ops * Changes; }
    if Rename in ops { assert Rename in ops * {Remove, Rename}; assert Rename in ops * Changes; }
  }

  /** The filter spelled out: chmod-only events never count, removals and
      renames always count, and creations and writes count only for
      allowed files; so a write to a Markdown file schedules nothing. */
  lemma WantsRefreshCases(event: Event, allowed: set<string>)
    ensures event.ops <= {Chmod} ==> !WantsRefresh(event, allowed)
    ensures (Remove in event.ops || Rename in event.ops) ==> WantsRefresh(event, allowed)
    ensures event.ops * {Remove, Rename} == {} ==>
              (WantsRefresh(event, allowed) <==> IsAllowed(event.name, allowed) && event.ops * {Create, Write} != {})
  {
    if Remove in event.ops { assert Remove in event.ops * {Remove, Rename}; assert Remove in event.ops * Changes; }
    if Rename in event.ops { assert Rename in event.ops * {Remove, Rename}; assert Rename in event.ops * Changes; }
    if event.ops * {Remove, Rename} == {} {
      assert event.ops * Changes == event.ops * {Create, Write};
    }
    if event.ops <= {Chmod} {
      assert event.ops * Changes == {};
    }
  }

  /** A write to a Markdown file in the library schedules no refresh when
      no configured extension is ".md". */
  lemma MarkdownWriteIgnored(exts: seq<string>, name: string)
    requires forall i :: 0 <= i < |exts| ==> ToLower(exts[i]) != ".md"
    requires name == "/srv/audio/notes.md"
    ensures !WantsRefresh(Event(name, {Write}), LowerSet(exts))
  {
    var md := ".md";
    MarkdownExt(name, md);
    assert !IsAllowed(name, LowerSet(exts));
    WantsRefreshCases(Event(name, {Write}), LowerSet(exts));
  }

  lemma MarkdownExt(name: string, md: string)
    requires name == "/srv/audio/notes.md" && md == ".md"
    ensures ToLower(Ext(name)) == md
  {
    var stem, tail := "/srv/audio/notes.", "md";
    MarkdownSplit(name, stem, tail);
    ExtOfPlainTail(stem, tail);
  }

  lemma MarkdownSplit(name: string, stem: string, tail: string)
    requires name == "/srv/audio/notes.md" && stem == "/srv/audio/notes." && tail == "md"
    ensures name == stem + tail
  {
  }

  /** The directories of a walk, in walk order: what `addWatchRecursive`
      asks the watcher to watch. */
  function Directories(walk: seq<WalkEntry>): (dirs: seq<string>)
    ensures |dirs| <= |walk|
    ensures forall d :: d in dirs <==> Visit(d, true) in walk
  {
    if walk == [] then []
    else
      var last := walk[|walk| - 1];
      assert walk == walk[..|walk| - 1] + [last];
      Directories(walk[..|walk| - 1]) + (if last.Visit? && last.isDir then [last.path] else [])
  }

  /** A file qualifies when it is an allowed entry that is not a directory
      and its builder
      succeeded. */
  predicate Qualifies(entry: WalkEntry, allowed: set<string>, build: string -> Result<Episode, Error>) {
    entry.Visit? && !entry.isDir && IsAllowed(entry.path, allowed) && build(entry.path).Success?
  }

  /** What the walk callback adds for one entry: the episode of an allowed
      non-directory entry whose builder succeeded, and nothing otherwise. */
  function EntryEpisodes(entry: WalkEntry, allowed: set<string>, build: string -> Result<Episode, Error>)
    : (r: seq<Episode>)
    ensures |r| <= 1
    ensures r != [] <==> Qualifies(entry, allowed, build)
    ensures r != [] ==> r == [build(entry.path).value]
  {
    match entry
    case VisitError(_, _) => []
    case Visit(path, isDir) =>
      if isDir || !IsAllowed(path, allowed) then []
      else
        match build(path)
        case Success(e) => [e]
        case Failure(_) => []
  }

  /** The episodes a walk yields, in walk order. */
  function Collect(walk: seq<WalkEntry>, allowed: set<string>, build: string -> Result<Episode, Error>)
    : seq<Episode>
  {
    if walk == [] then []
    else Collect(walk[..|walk| - 1], allowed, build) + EntryEpisodes(walk[|walk| - 1], allowed, build)
  }

  /** The walk yields exactly the episodes of the qualifying files. */
  lemma CollectMembers(walk: seq<WalkEntry>, allowed: set<string>, build: string -> Result<Episode, Error>, e: Episode)
    ensures e in Collect(walk, allowed, build) <==>
            exists i :: 0 <= i < |walk| && Qualifies(walk[i], allowed, build) && build(walk[i].path).value == e
  {
    if e in Collect(walk, allowed, build) {
      CollectOnlyQualifying(walk, allowed, build, e);
    }
    if exists i :: 0 <= i < |walk| && Qualifies(walk[i], allowed, build) && build(walk[i].path).value == e {
      var i :| 0 <= i < |walk| && Qualifies(walk[i], allowed, build) && build(walk[i].path).value == e;
      CollectEveryQualifying(walk, allowed, build, i);
    }
  }

  lemma {:induction false} CollectOnlyQualifying(walk: seq<WalkEntry>, allowed: set<string>, build: string -> Result<Episode, Error>, e: Episode)
    requires e in Collect(walk, allowed, build)
    ensures exists i :: 0 <= i < |walk| && Qualifies(walk[i], allowed, build) && build(walk[i].path).value == e
  {
    var init, last := walk[..|walk| - 1], walk[|walk| - 1];
    if e in Collect(init, allowed, build) {
      CollectOnlyQualifying(init, allowed, build, e);
      var i :| 0 <= i < |init| && Qualifies(init[i], allowed, build) && build(init[i].path).value == e;
      assert walk[i] == init[i];
    } else {
      assert Qualifies(walk[|walk| - 1], allowed, build);
    }
  }

  lemma {:induction false} CollectEveryQualifying(walk: seq<WalkEntry>, allowed: set<string>, build: string -> Result<Episode, Error>, i: nat)
    requires i < |walk| && Qualifies(walk[i], allowed, build)
    ensures build(walk[i].path).value in Collect(walk, allowed, build)
  {
    var init := walk[..|walk| - 1];
    if i < |init| {
      assert init[i] == walk[i];
      CollectEveryQualifying(init, allowed, build, i);
    }
  }

  lemma {:induction false} CollectConcat(w1: seq<WalkEntry>, w2: seq<WalkEntry>, allowed: set<string>, build: string -> Result<Episode, Error>)
    ensures Collect(w1 + w2, allowed, build) == Collect(w1, allowed, build) + Collect(w2, allowed, build)
    decreases |w2|
  {
    if w2 == [] {
      assert w1 + w2 == w1;
    } else {
      var init := w2[..|w2| - 1];
      assert (w1 + w2)[..|w1 + w2| - 1] == w1 + init;
      assert (w1 + w2)[|w1 + w2| - 1] == w2[|w2| - 1];
      CollectConcat(w1, init, allowed, build);
    }
  }

  /** A file whose builder fails is skipped and nothing else is lost: the
      walk yields what it would yield without that file. */
  lemma BuilderFailureSkipsOnlyThatFile(w1: seq<WalkEntry>, path: string, w2: seq<WalkEntry>,
                                        allowed: set<string>, build: string -> Result<Episode, Error>)
    requires build(path).Failure?
    ensures Collect(w1 + [Visit(path, false)] + w2, allowed, build) == Collect(w1 + w2, allowed, build)
  {
    var one := [Visit(path, false)];
    assert EntryEpisodes(Visit(path, false), allowed, build) == [];
    assert Collect(one, allowed, build) == [] by {
      assert one[..0] == [];
    }
    CollectConcat(w1 + one, w2, allowed, build);
    CollectConcat(w1, one, allowed, build);
    CollectConcat(w1, w2, allowed, build);
  }

  /** The published order: relative path, then file name, both with Go's
      string order. */
  predicate PathLess(a: Episode, b: Episode) {
    if a.relativePath == b.relativePath then StrLess(a.filename, b.filename)
    else StrLess(a.relativePath, b.relativePath)
  }

  /** Not less by `PathLess` means the other way round or an equal key. */
  lemma NotPathLess(a: Episode, b: Episode)
    requires !PathLess(a, b)
    ensures PathLess(b, a) || (a.relativePath == b.relativePath && a.filename == b.filename)
  {
    if a.relativePath != b.relativePath {
      StrLessTotal(a.relativePath, b.relativePath);
    } else if a.filename != b.filename {
      StrLessTotal(a.filename, b.filename);
    }
  }

  lemma PathLessAsymmetric(a: Episode, b: Episode)
    requires PathLess(a, b)
    ensures !PathLess(b, a)
  {
    if a.relativePath == b.relativePath {
      StrLessAsymmetric(a.filename, b.filename);
    } else {
      StrLessAsymmetric(a.relativePath, b.relativePath);
    }
  }

  lemma PathLessTransitive(a: Episode, b: Episode, c: Episode)
    requires PathLess(a, b) && PathLess(b, c)
    ensures PathLess(a, c)
  {
    if a.relativePath == b.relativePath == c.relativePath {
      StrLessTransitive(a.filename, b.filename, c.filename);
    } else if a.relativePath == b.relativePath {
    } else if b.relativePath == c.relativePath {
    } else {
      StrLessTransitive(a.relativePath, b.relativePath, c.relativePath);
      if a.relativePath == c.relativePath {
        StrLessIrreflexive(a.relativePath);
      }
    }
  }

  /** `PathLess` is a strict weak order, as `sort.SliceStable` needs. */
  lemma PathLessIsStrictWeakOrder()
    ensures StrictWeakOrder(PathLess)
  {
    forall x, y | PathLess(x, y) ensures !PathLess(y, x) {
      PathLessAsymmetric(x, y);
    }
    forall x, y, z | PathLess(x, y) && PathLess(y, z) ensures PathLess(x, z) {
      PathLessTransitive(x, y, z);
    }
    forall x, y, z | !PathLess(x, y) && !PathLess(y, z) ensures !PathLess(x, z) {
      NotPathLess(x, y);
      NotPathLess(y, z);
      if PathLess(x, z) {
        if PathLess(y, x) && PathLess(z, y) {
          PathLessTransitive(z, y, x);
          PathLessAsymmetric(x, z);
        } else if PathLess(y, x) {
          PathLessAsymmetric(x, z);
        } else if PathLess(z, y) {
          PathLessAsymmetric(x, z);
        } else {
          StrLessIrreflexive(x.filename);
          StrLessIrreflexive(x.relativePath);
        }
      }
    }
  }

  /** The snapshot a rescan publishes. */
  function Snapshot(walk: seq<WalkEntry>, allowed: set<string>, build: string -> Result<Episode, Error>)
    : seq<Episode>
  {
    InsertionSort(Collect(walk, allowed, build), PathLess)
  }

  /** The snapshot holds exactly the episodes of the qualifying files, as
      many times as the walk yields them, ordered by relative path and then
      file name, with equal keys left in walk order. */
  lemma SnapshotProperties(walk: seq<WalkEntry>, allowed: set<string>, build: string -> Result<Episode, Error>)
    ensures multiset(Snapshot(walk, allowed, build)) == multiset(Collect(walk, allowed, build))
    ensures forall e :: e in Snapshot(walk, allowed, build) <==>
              exists i :: 0 <= i < |walk| && Qualifies(walk[i], allowed, build) && build(walk[i].path).value == e
    ensures SortedBy(Snapshot(walk, allowed, build), PathLess)
    ensures forall y :: EquivalentTo(Snapshot(walk, allowed, build), y, PathLess)
                        == EquivalentTo(Collect(walk, allowed, build), y, PathLess)
  {
    var c := Collect(walk, allowed, build);
    InsertionSortPermutes(c, PathLess);
    forall e ensures e in Snapshot(walk, allowed, build) <==>
              exists i :: 0 <= i < |walk| && Qualifies(walk[i], allowed, build) && build(walk[i].path).value == e {
      CollectMembers(walk, allowed, build, e);
      assert e in Snapshot(walk, allowed, build) <==> e in multiset(Snapshot(walk, allowed, build));
      assert e in c <==> e in multiset(c);
    }
    PathLessIsStrictWeakOrder();
    InsertionSortSorted(c, PathLess);
    forall y ensures EquivalentTo(Snapshot(walk, allowed, build), y, PathLess) == EquivalentTo(c, y, PathLess) {
      InsertionSortStable(c, y, PathLess);
    }
  }

  /** The walk callback of `refresh`, entry by entry: the episodes of the
      allowed non-directory entries whose builder succeeds, in walk order. */
  method WalkEpisodes(walk: seq<WalkEntry>, allowed: set<string>, build: string -> Result<Episode, Error>)
    returns (found: seq<Episode>)
    ensures found == Collect(walk, allowed, build)
  {
    found := [];
    for i := 0 to |walk|
      invariant found == Collect(walk[..i], allowed, build)
    {
      assert walk[..i + 1][..i] == walk[..i];
      match walk[i]
      case VisitError(_, _) =>
      case Visit(path, isDir) =>
        if !isDir && IsAllowed(path, allowed) {
          match build(path)
          case Success(e) =>
            found := found + [e];
          case Failure(_) =>
        }
    }
    assert walk[..|walk|] == walk;
  }

  /** `Library`: the root, the allowed extensions, the published episodes,
      the directories it asked the watcher to watch, and the debounce and
      close machinery. */
  class Library {
    const root: string
    const allowed: set<string>
    var episodes: seq<Episode>
    var watchRequests: seq<string>
    const timers: Debouncer

    ghost predicate Valid()
      reads this, timers
    {
      timers.Debounced() && SortedBy(episodes, PathLess)
    }

    /** The fields `NewLibrary` sets before any watching or scanning. */
    constructor (root: string, exts: seq<string>)
      ensures this.root == root && allowed == LowerSet(exts)
      ensures episodes == [] && watchRequests == []
      ensures fresh(timers) && timers.Debounced() && timers.armed == {} && timers.firing == {}
      ensures !timers.closed && timers.closeErr.None?
      ensures Valid()
    {
      var set_ := LowerExtensions(exts);
      this.root := root;
      allowed := set_;
      episodes := [];
      watchRequests := [];
      timers := new Debouncer();
    }

    /** `addWatchRecursive`: every directory of the walk is handed to the
        watcher (a refusal is only logged). */
    method AddWatchRecursive(walk: seq<WalkEntry>)
      modifies this
      ensures watchRequests == old(watchRequests) + Directories(walk)
      ensures episodes == old(episodes)
    {
      var dirs: seq<string> := [];
      for i := 0 to |walk|
        invariant dirs == Directories(walk[..i])
      {
        assert walk[..i + 1][..i] == walk[..i];
        if walk[i].Visit? && walk[i].isDir {
          dirs := dirs + [walk[i].path];
        }
      }
      assert walk[..|walk|] == walk;
      watchRequests := watchRequests + dirs;
    }

    /** `refresh`: walks the root, keeps the episodes of allowed regular
        files whose builder succeeds, sorts them stably by relative path
        and file name, and swaps them in. The walk callback swallows every
        error, so the walk, and with it `refresh`, never fails. */
    method Refresh(walk: seq<WalkEntry>, build: string -> Result<Episode, Error>) returns (err: Option<Error>)
      requires Valid()
      modifies this
      ensures episodes == Snapshot(walk, allowed, build)
      ensures err.None?
      ensures watchRequests == old(watchRequests)
      ensures Valid()
    {
      var found := WalkEpisodes(walk, allowed, build);
      var sorted := new Episode[|found|](i requires 0 <= i < |found| => found[i]);
      assert sorted[..] == found;
      SortInPlace(sorted, PathLess);
      var snapshot := sorted[..];
      PathLessIsStrictWeakOrder();
      InsertionSortSorted(found, PathLess);
      assert snapshot == Snapshot(walk, allowed, build) && SortedBy(snapshot, PathLess);
      episodes := snapshot;
      err := None;
    }

    /** `ListEpisodes`: a fresh array holding the current snapshot. */
    method ListEpisodes() returns (result: array<Episode>)
      ensures fresh(result) && result[..] == episodes
    {
      result := new Episode[|episodes|](i requires 0 <= i < |episodes| reads this => episodes[i]);
    }

    /** `scheduleRefresh`: nothing once closed; otherwise the timer the
        handle names is stopped and a new one, the only one armed, is
        created. The test of `done` and the arming are one step here; see
        `CloseDuringSchedule` for the source's two. */
    method ScheduleRefresh()
      requires Valid()
      modifies timers
      ensures Valid()
      ensures old(timers.closed) ==> unchanged(timers)
      ensures !old(timers.closed) ==>
        && timers.pending == Some(old(timers.created)) && timers.armed == {old(timers.created)}
        && timers.firing == old(timers.firing) && timers.created == old(timers.created) + 1
        && !timers.closed && timers.closeErr == old(timers.closeErr)
    {
      timers.Schedule();
    }

    /** `handleEvent`: a created directory is watched, with everything
        below it, before the refresh decision; then a refresh is scheduled
        when the event filter asks for one. `createdDir` is what `os.Stat`
        says of the event's path, and `subtree` the walk below it. */
    method HandleEvent(event: Event, createdDir: bool, subtree: seq<WalkEntry>)
      requires Valid()
      modifies this, timers
      ensures Valid()
      ensures watchRequests == old(watchRequests)
                + (if Create in event.ops && createdDir then Directories(subtree) else [])
      ensures episodes == old(episodes)
      ensures !WantsRefresh(event, allowed) ==> unchanged(timers)
      ensures WantsRefresh(event, allowed) && !old(timers.closed) ==>
        && timers.pending == Some(old(timers.created)) && timers.armed == {old(timers.created)}
        && timers.firing == old(timers.firing) && timers.created == old(timers.created) + 1
        && !timers.closed && timers.closeErr == old(timers.closeErr)
      ensures old(timers.closed) ==> unchanged(timers)
    {
      if Create in event.ops && createdDir {
        AddWatchRecursive(subtree);
      }
      if WantsRefresh(event, allowed) {
        ScheduleRefresh();
      }
    }

    /** Timer `t` fires and its callback rescans the library. */
    method FireTimer(t: nat, walk: seq<WalkEntry>, build: string -> Result<Episode, Error>)
      requires Valid() && t in timers.armed
      modifies this, timers
      ensures Valid()
      ensures episodes == Snapshot(walk, allowed, build)
      ensures timers.armed == old(timers.armed) - {t} && timers.firing == old(timers.firing) + {t}
      ensures timers.pending == old(timers.pending) && timers.created == old(timers.created)
      ensures !timers.closed && timers.closeErr == old(timers.closeErr)
      ensures watchRequests == old(watchRequests)
    {
      timers.Fire(t);
      var _ := Refresh(walk, build);
    }

    /** The end of timer `t`'s callback: the handle is cleared only if it
        still names `t`, so a timer armed meanwhile stays reachable by
        `Close`. */
    method FinishTimer(t: nat)
      requires Valid() && t in timers.firing
      modifies timers
      ensures Valid()
      ensures timers.pending == (if old(timers.pending) == Some(t) then None else old(timers.pending))
      ensures timers.firing == old(timers.firing) - {t}
      ensures timers.armed == old(timers.armed) && timers.created == old(timers.created)
      ensures timers.closed == old(timers.closed) && timers.closeErr == old(timers.closeErr)
    {
      timers.Finish(t);
    }

    /** `Close`: tears down once and returns the same error every time;
        afterwards nothing is armed, so no rescan can start. */
    method Close(watcherErr: Option<Error>) returns (err: Option<Error>)
      requires Valid()
      modifies timers
      ensures Valid()
      ensures err == timers.closeErr && timers.closed && timers.pending.None? && timers.armed == {}
      ensures old(timers.closed) ==> unchanged(timers)
      ensures !old(timers.closed) ==>
        && timers.closeErr == watcherErr
        && timers.firing == old(timers.firing) && timers.created == old(timers.created)
    {
      err := timers.Close(watcherErr);
    }
  }

  /** `NewLibrary`: fails only when no watcher can be created. Otherwise it
      watches every directory under the root, scans once and returns the
      library, open and with nothing scheduled. The root is walked twice,
      once to add the watches (`watchWalk`) and once by the first scan
      (`scanWalk`); the tree may change between the two. */
  method NewLibrary(root: string, exts: seq<string>, watcherErr: Option<Error>,
                    watchWalk: seq<WalkEntry>, scanWalk: seq<WalkEntry>,
                    build: string -> Result<Episode, Error>)
    returns (lib: Library?, err: Option<Error>)
    ensures err == watcherErr
    ensures watcherErr.Some? ==> lib == null
    ensures watcherErr.None? ==>
      && lib != null && fresh(lib) && fresh(lib.timers) && lib.Valid()
      && lib.root == root && lib.allowed == LowerSet(exts)
      && lib.episodes == Snapshot(scanWalk, lib.allowed, build)
      && lib.watchRequests == Directories(watchWalk)
      && !lib.timers.closed && lib.timers.armed == {} && lib.timers.firing == {}
  {
    if watcherErr.Some? {
      return null, watcherErr;
    }
    lib := new Library(root, exts);
    lib.AddWatchRecursive(watchWalk);
    var _ := lib.Refresh(scanWalk, build);
    err := None;
  }

  /** A caller that changes the array `ListEpisodes` returned does not
      change what the next call returns. */
  method ListEpisodesReturnsCopy(lib: Library, replacement: Episode) returns (first: array<Episode>, second: array<Episode>)
    requires |lib.episodes| > 0
    ensures first.Length == |lib.episodes| && first[0] == replacement
    ensures second[..] == lib.episodes
  {
    first := lib.ListEpisodes();
    first[0] := replacement;
    second := lib.ListEpisodes();
  }
}
