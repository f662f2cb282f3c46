/** The session store, `VideoScanner`: the videos found under a folder, the
    ones already played or skipped, the recently-played list, and the
    snapshot of all of these written to and read back from the state file. */
module Scanner {
  import opened Common
  import opened Paths
  import opened Recency

  /** One item yielded by the recursive directory walk (`folder.rglob('*')`):
      its path and whether it is a regular file. */
  datatype FileEntry = FileEntry(path: string, isFile: bool)

  /** The scan's test on a walked entry. */
  predicate IsVideoFile(e: FileEntry)
  {
    e.isFile && HasVideoSuffix(BaseName(e.path))
  }

  /** What `scan_folder` returns, or the `ValueError` it raises. */
  datatype ScanOutcome = Found(count: nat) | InvalidFolder

  /** The four fields of a session. */
  datatype Session = Session(
    currentFolder: Option<string>,
    played: set<string>,
    recent: seq<string>,
    files: seq<string>)

  /** The JSON object written by `save_state`. A key missing from a file
      read back is represented by the default `load_state` uses for it:
      "" for the folder, [] for a list. */
  datatype Snapshot = Snapshot(
    currentFolder: string,
    playedVideos: seq<string>,
    recentVideos: seq<string>,
    videoFiles: seq<string>)

  /** The state file on disk: absent, not parseable as JSON, or a snapshot. */
  datatype StateFile = NoFile | Unparsable | Saved(snapshot: Snapshot)

  /** The path of a walked entry if the scan keeps it. */
  function Kept(e: FileEntry): seq<string>
  {
    if IsVideoFile(e) then [e.path] else []
  }

  /** The paths of the video files of a walk, in walk order. */
  function VideoFilesOf(walk: seq<FileEntry>): seq<string>
  {
    if walk == [] then []
    else VideoFilesOf(walk[..|walk| - 1]) + Kept(walk[|walk| - 1])
  }

  /** Scanning a walk in two parts gives the videos of the first part, then
      those of the second: traversal order is kept. */
  lemma {:induction false} VideoFilesOfAppend(a: seq<FileEntry>, b: seq<FileEntry>)
    ensures VideoFilesOf(a + b) == VideoFilesOf(a) + VideoFilesOf(b)
  {
    if b != [] {
      var init := b[..|b| - 1];
      var last := b[|b| - 1];
      assert (a + b)[..|a + b| - 1] == a + init;
      assert (a + b)[|a + b| - 1] == last;
      VideoFilesOfAppend(a, init);
      calc {
        VideoFilesOf(a + b);
        VideoFilesOf(a + init) + Kept(last);
        VideoFilesOf(a) + VideoFilesOf(init) + Kept(last);
        VideoFilesOf(a) + (VideoFilesOf(init) + Kept(last));
      }
    } else {
      assert a + b == a;
    }
  }

  /** A path is found by the scan exactly when the walk yields it as a
      regular file with a recognised extension. */
  lemma {:induction false} VideoFilesOfMembers(walk: seq<FileEntry>, x: string)
    ensures x in VideoFilesOf(walk) <==> FileEntry(x, true) in walk && IsVideoFile(FileEntry(x, true))
  {
    if walk != [] {
      var init := walk[..|walk| - 1];
      VideoFilesOfMembers(init, x);
      assert walk == init + [walk[|walk| - 1]];
    }
  }

  /** The videos not yet played, in scan order (the list comprehension in
      `get_random_video`). */
  function Unplayed(files: seq<string>, played: set<string>): (r: seq<string>)
    ensures |r| <= |files|
    ensures forall x :: x in r <==> x in files && x !in played
  {
    if files == [] then []
    else
      var last := files[|files| - 1];
      Unplayed(files[..|files| - 1], played) + if last !in played then [last] else []
  }

  /** The pool of a pick is empty exactly when every video has been played:
      the session is exhausted. */
  lemma UnplayedEmptyIffExhausted(files: seq<string>, played: set<string>)
    ensures Unplayed(files, played) == [] <==> Elements(files) <= played
  {
  }

  /** Picks made one after another, each from the videos not played so far
      and each then marked played or skipped, never repeat a video; so at
      most as many picks as there were unplayed videos can happen before
      the session is exhausted. */
  lemma NoRepeatUntilExhausted(files: seq<string>, played: set<string>, picks: seq<string>)
    requires forall i :: 0 <= i < |picks| ==> picks[i] in Unplayed(files, played + Elements(picks[..i]))
    ensures NoDup(picks)
    ensures Elements(picks) <= Elements(files) - played
    ensures |picks| <= |Elements(files) - played|
  {
    forall i | 0 <= i < |picks|
      ensures picks[i] in files && picks[i] !in played && picks[i] !in picks[..i]
    {
      assert picks[i] in Unplayed(files, played + Elements(picks[..i]));
    }
    assert NoDup(picks) by {
      forall i, j | 0 <= i < j < |picks| ensures picks[i] != picks[j] {
        assert picks[i] in picks[..j];
      }
    }
    NoDupCardinality(picks);
    SubsetCardinality(Elements(picks), Elements(files) - played);
  }

  lemma SubsetCardinality(a: set<string>, b: set<string>)
    requires a <= b
    ensures |a| <= |b|
  {
    assert b == a + (b - a);
  }

  /** A saved entry if it passes `_validate_path` against the folder. */
  function KeptOnLoad(x: string, folder: string, resolve: Resolver): seq<string>
  {
    if ValidatePath(x, Some(folder), resolve).Some? then [x] else []
  }

  /** The entries of a saved list that pass `_validate_path` against the
      restored folder, in their saved order. */
  function ValidEntries(xs: seq<string>, folder: string, resolve: Resolver): seq<string>
  {
    if xs == [] then []
    else ValidEntries(xs[..|xs| - 1], folder, resolve) + KeptOnLoad(xs[|xs| - 1], folder, resolve)
  }

  /** An entry survives loading exactly when it was saved and passes the
      traversal and containment check against the restored folder. */
  lemma {:induction false} ValidEntriesMembers(xs: seq<string>, folder: string, resolve: Resolver, x: string)
    ensures x in ValidEntries(xs, folder, resolve) <==>
      x in xs && ValidatePath(x, Some(folder), resolve).Some?
  {
    if xs != [] {
      var init := xs[..|xs| - 1];
      ValidEntriesMembers(init, folder, resolve, x);
      assert xs == init + [xs[|xs| - 1]];
    }
  }

  /** Filtering keeps saved order: two parts of a saved list filter to the
      two filtered parts, one after the other. */
  lemma {:induction false} ValidEntriesAppend(a: seq<string>, b: seq<string>, folder: string, resolve: Resolver)
    ensures ValidEntries(a + b, folder, resolve) == ValidEntries(a, folder, resolve) + ValidEntries(b, folder, resolve)
  {
    if b != [] {
      var init := b[..|b| - 1];
      var last := b[|b| - 1];
      assert (a + b)[..|a + b| - 1] == a + init;
      assert (a + b)[|a + b| - 1] == last;
      ValidEntriesAppend(a, init, folder, resolve);
      calc {
        ValidEntries(a + b, folder, resolve);
        ValidEntries(a + init, folder, resolve) + KeptOnLoad(last, folder, resolve);
        ValidEntries(a, folder, resolve) + ValidEntries(init, folder, resolve) + KeptOnLoad(last, folder, resolve);
        ValidEntries(a, folder, resolve) + (ValidEntries(init, folder, resolve) + KeptOnLoad(last, folder, resolve));
      }
    } else {
      assert a + b == a;
    }
  }

  /** A list whose every entry is valid is read back unchanged. */
  lemma {:induction false} ValidEntriesAllValid(xs: seq<string>, folder: string, resolve: Resolver)
    requires forall x :: x in xs ==> ValidatePath(x, Some(folder), resolve).Some?
    ensures ValidEntries(xs, folder, resolve) == xs
  {
    if xs != [] {
      var init, last := xs[..|xs| - 1], xs[|xs| - 1];
      assert xs == init + [last];
      ValidEntriesAllValid(init, folder, resolve);
      assert KeptOnLoad(last, folder, resolve) == [last];
    }
  }

  /** The session `load_state` restores from a snapshot, or `None` when the
      folder itself fails validation (checked without a base, so only a
      resolution error or a ".." rejects it). */
  function Restore(snap: Snapshot, resolve: Resolver): Option<Session>
  {
    match ValidatePath(snap.currentFolder, None, resolve)
    case None => None
    case Some(folder) =>
      Some(Session(
        Some(folder),
        Elements(ValidEntries(snap.playedVideos, folder, resolve)),
        ValidEntries(snap.recentVideos, folder, resolve),
        ValidEntries(snap.videoFiles, folder, resolve)))
  }

  /** Every path of a session is accepted by `_validate_path` on reload. */
  predicate AllValid(s: Session, resolve: Resolver)
  {
    && s.currentFolder.Some?
    && ValidatePath(s.currentFolder.value, None, resolve).Some?
    && (forall x :: x in s.played ==> ValidatePath(x, Some(s.currentFolder.value), resolve).Some?)
    && (forall x :: x in s.recent ==> ValidatePath(x, Some(s.currentFolder.value), resolve).Some?)
    && (forall x :: x in s.files ==> ValidatePath(x, Some(s.currentFolder.value), resolve).Some?)
  }

  /** Saving and loading back restores the folder and all three
      collections when every saved path is valid; the played set may be
      listed in any order. */
  lemma SaveLoadRoundTrip(s: Session, playedList: seq<string>, resolve: Resolver)
    requires AllValid(s, resolve)
    requires Elements(playedList) == s.played
    ensures Restore(Snapshot(s.currentFolder.value, playedList, s.recent, s.files), resolve) == Some(s)
  {
    var folder := s.currentFolder.value;
    ValidEntriesAllValid(playedList, folder, resolve);
    ValidEntriesAllValid(s.recent, folder, resolve);
    ValidEntriesAllValid(s.files, folder, resolve);
  }

  /** A traversal entry is dropped from the played set while the load as a
      whole still succeeds; a folder with ".." makes the load fail. */
  lemma TraversalOnLoad(snap: Snapshot, resolve: Resolver)
    ensures ValidatePath(snap.currentFolder, None, resolve).Some? ==>
      Restore(snap, resolve).Some? && "../../etc/passwd" !in Restore(snap, resolve).value.played
    ensures HasDotDot(snap.currentFolder) ==> Restore(snap, resolve) == None
  {
    if ValidatePath(snap.currentFolder, None, resolve).Some? {
      TraversalRejected(Some(snap.currentFolder), resolve);
      ValidEntriesMembers(snap.playedVideos, snap.currentFolder, resolve, "../../etc/passwd");
    }
  }

  /** The ".." test is on the text, not on path components: a file the scan
      accepts, such as "clip..mp4", is dropped from every collection when
      the state is read back, so the round trip above needs its premise. */
  lemma DoubleDotNameLostOnReload(folder: string, resolve: Resolver)
    requires ValidatePath(folder, None, resolve).Some?
    ensures IsVideoFile(FileEntry("clip..mp4", true))
    ensures Restore(Snapshot(folder, ["clip..mp4"], ["clip..mp4"], ["clip..mp4"]), resolve)
      == Some(Session(Some(folder), {}, [], []))
  {
    DoubleDotNameIsVideo();
    DoubleDotEntryDropped(folder, resolve);
    var none: seq<string> := [];
    assert Elements(none) == {};
    assert ValidatePath(folder, None, resolve) == Some(folder);
  }

  lemma DoubleDotEntryDropped(folder: string, resolve: Resolver)
    ensures ValidEntries(["clip..mp4"], folder, resolve) == []
  {
  }

  lemma DoubleDotNameIsVideo()
    ensures IsVideoFile(FileEntry("clip..mp4", true))
  {
    var name := "clip..mp4";
    assert LastIndexOf(name, '/') == -1 by {
      assert forall j :: 0 <= j < |name| ==> name[j] != '/';
    }
    assert LastIndexOf(name, '.') == 5 by {
      assert name[5] == '.';
    }
    assert Suffix(name) == ".mp4" && Lower(".mp4") == ".mp4";
  }

  /** The relation between the fields that the store intends: the recency
      list is bounded, duplicate-free and made of played videos. */
  predicate Tidy(s: Session)
  {
    NoDup(s.recent) && |s.recent| <= MaxRecent && Elements(s.recent) <= s.played
  }

  /** `mark_played` keeps the relation. */
  lemma TouchKeepsTidy(s: Session, v: string)
    requires Tidy(s)
    ensures Tidy(Session(s.currentFolder, s.played + {v}, Touch(s.recent, v), s.files))
  {
    TouchFront(s.recent, v);
    TouchElements(s.recent, v);
    TouchNoDup(s.recent, v);
  }

  /** Loading does not restore that relation: each list is filtered on its
      own, so a hand-edited file listing a valid video twice as recent,
      and not as played, loads with a repeated and unplayed recent entry. */
  lemma LoadIgnoresTidiness(folder: string, video: string, resolve: Resolver)
    requires ValidatePath(folder, None, resolve).Some?
    requires ValidatePath(video, Some(folder), resolve).Some?
    ensures Restore(Snapshot(folder, [], [video, video], []), resolve).Some?
    ensures Restore(Snapshot(folder, [], [video, video], []), resolve).value.recent == [video, video]
    ensures !Tidy(Restore(Snapshot(folder, [], [video, video], []), resolve).value)
  {
    var twice := [video, video];
    assert twice[..1] == [video] && [video][..0] == twice[..0];
    assert ValidEntries([video], folder, resolve) == [video];
    assert ValidEntries(twice, folder, resolve) == twice;
  }

  /** The iteration of `save_state` over the played set: every member once,
      in whatever order the set yields them. */
  method ListOfSet(s: set<string>) returns (xs: seq<string>)
    ensures Elements(xs) == s && NoDup(xs)
  {
    xs := [];
    var rest := s;
    while rest != {}
      invariant Elements(xs) + rest == s
      invariant Elements(xs) !! rest
      invariant NoDup(xs)
      decreases rest
    {
      var x :| x in rest;
      xs := xs + [x];
      rest := rest - {x};
    }
  }

  /** The loop of `scan_folder` over the walk: each regular file with a
      video extension is appended, in walk order. */
  method CollectVideos(walk: seq<FileEntry>) returns (found: seq<string>)
    ensures found == VideoFilesOf(walk)
  {
    found := [];
    var i := 0;
    while i < |walk|
      invariant 0 <= i <= |walk|
      invariant found == VideoFilesOf(walk[..i])
    {
      assert walk[..i + 1][..i] == walk[..i] && walk[..i + 1][i] == walk[i];
      if IsVideoFile(walk[i]) {
        found := found + [walk[i].path];
      }
      i := i + 1;
    }
    assert walk[..i] == walk;
  }

  /** One of the loops of `load_state` that rebuilds a list: each saved
      entry is appended when it passes validation against the folder. */
  method KeepValid(xs: seq<string>, folder: string, resolve: Resolver) returns (kept: seq<string>)
    ensures kept == ValidEntries(xs, folder, resolve)
  {
    kept := [];
    var i := 0;
    while i < |xs|
      invariant 0 <= i <= |xs|
      invariant kept == ValidEntries(xs[..i], folder, resolve)
    {
      var video := xs[i];
      assert xs[..i + 1][..i] == xs[..i] && xs[..i + 1][i] == video;
      if ValidatePath(video, Some(folder), resolve).Some? {
        kept := kept + [video];
      }
      i := i + 1;
    }
    assert xs[..i] == xs;
  }

  /** The loop of `load_state` that rebuilds the played set. */
  method KeepValidSet(xs: seq<string>, folder: string, resolve: Resolver) returns (kept: set<string>)
    ensures kept == Elements(ValidEntries(xs, folder, resolve))
  {
    kept := {};
    var i := 0;
    while i < |xs|
      invariant 0 <= i <= |xs|
      invariant kept == Elements(ValidEntries(xs[..i], folder, resolve))
    {
      var video := xs[i];
      assert xs[..i + 1][..i] == xs[..i] && xs[..i + 1][i] == video;
      if ValidatePath(video, Some(folder), resolve).Some? {
        kept := kept + {video};
      }
      i := i + 1;
    }
    assert xs[..i] == xs;
  }

  class VideoScanner {
    var videoFiles: seq<string>
    var playedVideos: set<string>
    var recentVideos: seq<string>
    var currentFolder: Option<string>

    /** The four fields as one value. */
    function State(): Session
      reads this
    {
      Session(currentFolder, playedVideos, recentVideos, videoFiles)
    }

    /** A new store holds no folder and empty collections. */
    constructor ()
      ensures State() == Session(None, {}, [], [])
    {
      videoFiles := [];
      playedVideos := {};
      recentVideos := [];
      currentFolder := None;
    }

    /** `scan_folder(folder, persistent)`. The walk of the folder is the
        parameter `walk`; whether the folder exists is `folderExists`. */
    method ScanFolder(folder: Option<string>, folderExists: bool, walk: seq<FileEntry>, persistent: bool)
      returns (r: ScanOutcome)
      modifies this
      ensures r.InvalidFolder? <==> folder.None? || !folderExists
      ensures r.InvalidFolder? ==> State() == old(State())
      ensures r.Found? ==> currentFolder == folder && videoFiles == VideoFilesOf(walk) && r.count == |videoFiles|
      ensures r.Found? && persistent ==> playedVideos == old(playedVideos) && recentVideos == old(recentVideos)
      ensures r.Found? && !persistent ==> playedVideos == {} && recentVideos == []
      ensures Tidy(old(State())) ==> Tidy(State())
    {
      if folder.None? || !folderExists {
        return InvalidFolder;
      }
      currentFolder := folder;
      if !persistent {
        playedVideos := {};
        recentVideos := [];
      }
      videoFiles := CollectVideos(walk);
      r := Found(|videoFiles|);
    }

    /** `get_random_video`. The random choice is left open: any unplayed
        video may come back. `includeSkipped` is accepted and ignored. */
    method GetRandomVideo(includeSkipped: bool) returns (r: Option<string>)
      modifies this
      ensures r.None? <==> old(videoFiles) == []
      ensures old(videoFiles) == [] ==> State() == old(State())
      ensures videoFiles == old(videoFiles) && currentFolder == old(currentFolder)
      ensures Unplayed(old(videoFiles), old(playedVideos)) != [] ==>
        && playedVideos == old(playedVideos) && recentVideos == old(recentVideos)
        && r.Some? && r.value in old(videoFiles) && r.value !in old(playedVideos)
      ensures old(videoFiles) != [] && Unplayed(old(videoFiles), old(playedVideos)) == [] ==>
        playedVideos == {} && recentVideos == [] && r.Some? && r.value in videoFiles
      ensures Tidy(old(State())) ==> Tidy(State())
    {
      if videoFiles == [] {
        return None;
      }
      var pool := Unplayed(videoFiles, playedVideos);
      if pool == [] {
        ResetSession();
        pool := videoFiles;
      }
      var i :| 0 <= i < |pool|;
      r := Some(pool[i]);
    }

    /** `mark_played(video)`: the video joins the played set and moves to
        the front of the recency list, which is cut back to `MaxRecent`. */
    method MarkPlayed(video: string)
      modifies this
      ensures playedVideos == old(playedVideos) + {video}
      ensures recentVideos == Touch(old(recentVideos), video)
      ensures video in playedVideos && recentVideos[0] == video && |recentVideos| <= MaxRecent
      ensures videoFiles == old(videoFiles) && currentFolder == old(currentFolder)
      ensures Tidy(old(State())) ==> Tidy(State())
    {
      playedVideos := playedVideos + {video};
      RemoveFirstSpec(recentVideos, video);
      if video in recentVideos {
        recentVideos := RemoveFirst(recentVideos, video);
      }
      assert recentVideos == RemoveFirst(old(recentVideos), video);
      recentVideos := [video] + recentVideos;
      if |recentVideos| > MaxRecent {
        recentVideos := recentVideos[..MaxRecent];
      }
      assert recentVideos == Touch(old(recentVideos), video);
      TouchFront(old(recentVideos), video);
      if Tidy(old(State())) {
        TouchKeepsTidy(old(State()), video);
      }
    }

    /** `skip_video(video)`: played, but never shown as recently played. */
    method SkipVideo(video: string)
      modifies this
      ensures playedVideos == old(playedVideos) + {video}
      ensures recentVideos == old(recentVideos)
      ensures videoFiles == old(videoFiles) && currentFolder == old(currentFolder)
      ensures video !in old(playedVideos) ==> Progress().0 == old(Progress().0) + 1
      ensures Tidy(old(State())) ==> Tidy(State())
    {
      playedVideos := playedVideos + {video};
    }

    /** `reset_session`: a fresh session over the same videos and folder. */
    method ResetSession()
      modifies this
      ensures playedVideos == {} && recentVideos == []
      ensures videoFiles == old(videoFiles) && currentFolder == old(currentFolder)
    {
      playedVideos := {};
      recentVideos := [];
    }

    /** `get_progress`: (videos played or skipped, videos found). */
    function Progress(): (r: (int, int))
      reads this
      ensures r.0 == |playedVideos| && r.1 == |videoFiles|
    {
      (|playedVideos|, |videoFiles|)
    }

    /** `get_recent_videos(limit)`: a copy of the recency list, or its first
        `limit` entries for a positive limit. `if limit:` treats 0 like no
        limit; a negative limit slices from the end, as Python does. */
    function RecentVideos(limit: Option<int>): (r: seq<string>)
      reads this
      ensures r <= recentVideos
      ensures limit.None? || limit.value == 0 ==> r == recentVideos
      ensures limit.Some? && limit.value > 0 ==> |r| == Min(limit.value, |recentVideos|)
      ensures limit.Some? && limit.value < 0 ==> |r| == if |recentVideos| + limit.value < 0 then 0 else |recentVideos| + limit.value
    {
      if limit.Some? && limit.value != 0 then PrefixUpTo(recentVideos, limit.value)
      else recentVideos
    }

    /** `save_state`. The file before the call is `file`; the result is the
        file afterwards. Nothing is written before a folder has been
        scanned, and a failed write (`writeFails`) is swallowed, leaving
        the file as it was. */
    method SaveState(file: StateFile, writeFails: bool) returns (written: StateFile)
      ensures currentFolder.None? || writeFails ==> written == file
      ensures currentFolder.Some? && !writeFails ==>
        && written.Saved?
        && written.snapshot.currentFolder == currentFolder.value
        && Elements(written.snapshot.playedVideos) == playedVideos
        && NoDup(written.snapshot.playedVideos)
        && written.snapshot.recentVideos == recentVideos
        && written.snapshot.videoFiles == videoFiles
    {
      if currentFolder.None? {
        return file;
      }
      var played := ListOfSet(playedVideos);
      var snap := Snapshot(currentFolder.value, played, recentVideos, videoFiles);
      if writeFails {
        return file;
      }
      written := Saved(snap);
    }

    /** `load_state`. Fails, changing nothing, when there is no file, when it
        does not parse, or when its folder fails validation; otherwise
        replaces all four fields with the snapshot's, each list filtered in
        order to the entries valid under the restored folder. */
    method LoadState(file: StateFile, resolve: Resolver) returns (ok: bool)
      modifies this
      ensures ok <==> file.Saved? && Restore(file.snapshot, resolve).Some?
      ensures !ok ==> State() == old(State())
      ensures ok ==> State() == Restore(file.snapshot, resolve).value
    {
      if !file.Saved? {
        return false;
      }
      var snap := file.snapshot;
      var validated := ValidatePath(snap.currentFolder, None, resolve);
      if validated.None? {
        return false;
      }
      var folder := validated.value;
      currentFolder := Some(folder);

      playedVideos := KeepValidSet(snap.playedVideos, folder, resolve);
      recentVideos := KeepValid(snap.recentVideos, folder, resolve);
      videoFiles := KeepValid(snap.videoFiles, folder, resolve);
      ok := true;
    }

    /** `clear_saved_state`: the file is removed; a failure to remove it is
        swallowed and leaves it in place. */
    method ClearSavedState(file: StateFile, removeFails: bool) returns (after: StateFile)
      ensures after == if removeFails then file else NoFile
    {
      if file == NoFile || removeFails {
        return file;
      }
      after := NoFile;
    }
  }
}
