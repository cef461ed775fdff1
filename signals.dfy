/**
  The two hooks the catalog runs on a video record.

  After a save, `video_post_save` does, for a newly created record, a conflict
  precheck (any of the three rendition paths derived from the upload already
  exists: raise), then three synchronous conversions, 480p, 720p and 1080p. On every
  save that did not raise, new or not, it then removes the raw upload if it exists.

  After a delete, `auto_delete_file_on_delete` removes each rendition that exists
  and, inside the same loop, the thumbnail if the record has one and it exists.
 */
module Signals {
  import opened Wrappers
  import opened PyStr
  import opened Host
  import opened Tasks

  /** The part of a video record the hooks read: the upload's path and the optional thumbnail's. */
  datatype Video = Video(videoFile: Path, thumbnail: Option<Path>)

  /** The `ValueError` the save hook raises when a rendition path is already taken. */
  datatype SaveError = FileExists(path: Path)
  {
    function Message(): (msg: string)
      ensures OccursAt(msg, path, 10)
    {
      "The file '" + path + "' already exists. Please remove it before uploading a new video."
    }
  }

  /** The outcome of the save hook: what it raised, if anything, and the host afterwards. */
  datatype Saved = Saved(raised: Option<SaveError>, after: Snapshot)

  const Versions: seq<string> := ["_480p.mp4", "_720p.mp4", "_1080p.mp4"]

  /** The upload's path with every ".mp4" removed. */
  function BasePath(path: Path): Path
  {
    Replace(path, Ext, "")
  }

  /** The rendition paths both hooks derive, in the order they visit them. */
  function VersionPaths(path: Path): (ps: seq<Path>)
  {
    seq(|Versions|, i requires 0 <= i < |Versions| => BasePath(path) + Versions[i])
  }

  function ThumbnailFiles(thumbnail: Option<Path>): set<Path>
  {
    if thumbnail.Some? then {thumbnail.value} else {}
  }

  /** The first of `paths` that exists. */
  function FirstExisting(files: set<Path>, paths: seq<Path>): (r: Option<Path>)
    ensures r.None? <==> forall i | 0 <= i < |paths| :: paths[i] !in files
    ensures r.Some? ==>
      exists i | 0 <= i < |paths| ::
        paths[i] == r.value && r.value in files && forall j | 0 <= j < i :: paths[j] !in files
    decreases |paths|
  {
    if paths == [] then None
    else if paths[0] in files then Some(paths[0])
    else
      var r := FirstExisting(files, paths[1..]);
      assert r.Some? ==> exists i | 0 <= i < |paths[1..]| ::
        paths[1..][i] == r.value && r.value in files && forall j | 0 <= j < i :: paths[1..][j] !in files;
      if r.Some? then
        var i :| 0 <= i < |paths[1..]| &&
          paths[1..][i] == r.value && r.value in files && forall j | 0 <= j < i :: paths[1..][j] !in files;
        assert paths[i + 1] == r.value && forall j | 0 <= j < i + 1 :: paths[j] !in files;
        r
      else
        r
  }

  /** The conflict check that opens the save hook for a new record. */
  method Precheck(host: Host, path: Path) returns (conflict: Option<Path>)
    ensures conflict == FirstExisting(host.files, VersionPaths(path))
  {
    var base := Replace(path, Ext, "");
    var paths := VersionPaths(path);
    for i := 0 to |Versions|
      invariant FirstExisting(host.files, paths) == FirstExisting(host.files, paths[i..])
    {
      var versionPath := base + Versions[i];
      assert paths[i] == BasePath(path) + Versions[i] == versionPath;
      assert paths[i..][0] == versionPath && paths[i..][1..] == paths[i + 1..];
      var found := host.IsFile(versionPath);
      if found {
        return Some(versionPath);
      }
    }
    return None;
  }

  /** The three conversions, in the order the save hook makes them. */
  function Conversions(st: Snapshot, encodes: string -> bool, path: Path): Snapshot
  {
    var st480 := Converted(st, encodes, path, "hd480", "480p");
    var st720 := Converted(st480, encodes, path, "hd720", "720p");
    Converted(st720, encodes, path, "hd1080", "1080p")
  }

  /** What the save hook does to the host. */
  function PostSave(st: Snapshot, encodes: string -> bool, instance: Video, created: bool): (r: Saved)
    ensures r.raised.Some? <==> created && FirstExisting(st.files, VersionPaths(instance.videoFile)).Some?
    ensures r.raised.Some? ==>
      r.raised.value.path == FirstExisting(st.files, VersionPaths(instance.videoFile)).value && r.after == st
    ensures r.raised.None? ==> instance.videoFile !in r.after.files
    ensures !created ==> r.after.files == st.files - {instance.videoFile}
    ensures !created ==>
      r.after.log == st.log + if instance.videoFile in st.files then [Removed(instance.videoFile)] else []
  {
    var path := instance.videoFile;
    var conflict := if created then FirstExisting(st.files, VersionPaths(path)) else None;
    if conflict.Some? then
      Saved(Some(FileExists(conflict.value)), st)
    else
      var converted := if created then Conversions(st, encodes, path) else st;
      Saved(None, RemovedIfPresent(converted, path))
  }

  /** `video_post_save`; a raised `ValueError` is returned. */
  method VideoPostSave(host: Host, instance: Video, created: bool) returns (raised: Option<SaveError>)
    modifies host
    ensures Saved(raised, host.State()) == PostSave(old(host.State()), host.encodes, instance, created)
  {
    if created {
      var conflict := Precheck(host, instance.videoFile);
      if conflict.Some? {
        return Some(FileExists(conflict.value));
      }
      var _ := ConvertVideo(host, instance.videoFile, "hd480", "480p");
      var _ := ConvertVideo(host, instance.videoFile, "hd720", "720p");
      var _ := ConvertVideo(host, instance.videoFile, "hd1080", "1080p");
    }
    var present := host.IsFile(instance.videoFile);
    if present {
      host.Remove(instance.videoFile);
    }
    raised := None;
  }

  /** One pass of the delete hook's loop: the rendition, then the thumbnail. */
  function DeleteStep(st: Snapshot, versionPath: Path, thumbnail: Option<Path>): Snapshot
  {
    var st1 := RemovedIfPresent(st, versionPath);
    if thumbnail.Some? then RemovedIfPresent(st1, thumbnail.value) else st1
  }

  /** The delete hook's loop run over `paths`. */
  function DeleteRun(st: Snapshot, paths: seq<Path>, thumbnail: Option<Path>): Snapshot
    decreases |paths|
  {
    if paths == [] then st
    else DeleteStep(DeleteRun(st, paths[..|paths| - 1], thumbnail), paths[|paths| - 1], thumbnail)
  }

  /** `auto_delete_file_on_delete`. */
  method AutoDeleteFileOnDelete(host: Host, instance: Video)
    modifies host
    ensures host.State() == DeleteRun(old(host.State()), VersionPaths(instance.videoFile), instance.thumbnail)
  {
    var base := Replace(instance.videoFile, Ext, "");
    ghost var paths := VersionPaths(instance.videoFile);
    for i := 0 to |Versions|
      invariant host.State() == DeleteRun(old(host.State()), paths[..i], instance.thumbnail)
    {
      var versionPath := base + Versions[i];
      assert paths[i] == BasePath(instance.videoFile) + Versions[i] == versionPath;
      assert paths[..i + 1][..i] == paths[..i] && paths[..i + 1][i] == versionPath;
      var found := host.IsFile(versionPath);
      if found {
        host.Remove(versionPath);
      }
      if instance.thumbnail.Some? {
        var thumbFound := host.IsFile(instance.thumbnail.value);
        if thumbFound {
          host.Remove(instance.thumbnail.value);
        }
      }
    }
    assert paths[..|Versions|] == paths;
  }

  // ---------------------------------------------------------------------------
  // Paths: what the precheck inspects and what the converter writes

  /** The labels of the three conversions, in the order the save hook makes them. */
  const Tags: seq<string> := ["480p", "720p", "1080p"]

  /** For "name.mp4" with no other ".mp4", the precheck inspects exactly the converter's targets. */
  lemma PrecheckMatchesConverter(stem: Path)
    requires !Contains(stem, Ext)
    ensures VersionPaths(stem + Ext)
         == [Target(stem + Ext, "480p"), Target(stem + Ext, "720p"), Target(stem + Ext, "1080p")]
  {
    BasePathOfStem(stem);
    VersionPathOfStem(stem, 0, "480p");
    VersionPathOfStem(stem, 1, "720p");
    VersionPathOfStem(stem, 2, "1080p");
  }

  /** The base path of "name.mp4" is "name". */
  lemma BasePathOfStem(stem: Path)
    requires !Contains(stem, Ext)
    ensures BasePath(stem + Ext) == stem
  {
    ReplaceTrailingExt(stem, "");
    assert stem + "" == stem;
  }

  /** One precheck path of "name.mp4" is the converter's target for the same label. */
  lemma VersionPathOfStem(stem: Path, i: int, tag: string)
    requires !Contains(stem, Ext) && BasePath(stem + Ext) == stem
    requires 0 <= i < |Versions| && Versions[i] == "_" + tag + Ext
    ensures VersionPaths(stem + Ext)[i] == Target(stem + Ext, tag)
  {
    TargetOfStem(stem, tag);
    assert stem + "_" + tag + Ext == stem + ("_" + tag + Ext);
  }

  /**
    For any upload path but "name.mp4" with a single ".mp4", no path the precheck
    inspects is a file any of the three conversions writes: the precheck cannot see
    the conflicts it is there to catch.
   */
  lemma PrecheckMissesConverter(source: Path)
    ensures !SingleTrailingExt(source) ==>
      forall i, j | 0 <= i < |Versions| && 0 <= j < |Tags| :: VersionPaths(source)[i] != Target(source, Tags[j])
  {
    forall i, j | 0 <= i < |Versions| && 0 <= j < |Tags|
      ensures SingleTrailingExt(source) || VersionPaths(source)[i] != Target(source, Tags[j])
    {
      VersionPathMissesTarget(source, i, Tags[j]);
    }
  }

  /** One precheck path against the target of one label of length four or five. */
  lemma VersionPathMissesTarget(source: Path, i: int, tag: string)
    requires 0 <= i < |Versions| && 4 <= |tag| <= 5
    ensures SingleTrailingExt(source) || VersionPaths(source)[i] != Target(source, tag)
  {
    if Count(source, Ext) <= 1 {
      VersionPathEndsWithExt(source, i);
      TargetEndsWithExt(source, tag);
    } else {
      ManyExtLengths(source, i, tag);
    }
  }

  /** With two or more ".mp4", a precheck path is shorter than any target. */
  lemma ManyExtLengths(source: Path, i: int, tag: string)
    requires 0 <= i < |Versions| && 4 <= |tag| && Count(source, Ext) >= 2
    ensures |VersionPaths(source)[i]| < |Target(source, tag)|
  {
    var n, m := Count(source, Ext), |tag| + 1;
    BasePathLength(source);
    VersionPathLengths(source);
    TargetLength(source, tag);
    AtLeastTen(n, m);
    assert |VersionPaths(source)[i]| <= |source| - 4 * n + 10 <= |source| + 2;
    assert |Target(source, tag)| == |source| + n * m;
  }

  lemma AtLeastTen(n: int, m: int)
    requires n >= 2 && m >= 5
    ensures n * m >= 10
  {
    assert n * m >= 2 * m;
  }

  /** Every precheck path ends with ".mp4". */
  lemma VersionPathEndsWithExt(path: Path, i: int)
    requires 0 <= i < |Versions|
    ensures EndsWith(VersionPaths(path)[i], Ext)
  {
    var p := VersionPaths(path)[i];
    assert p == BasePath(path) + Versions[i];
    assert EndsWith(Versions[i], Ext);
    assert p[|p| - 4..] == Versions[i][|Versions[i]| - 4..];
  }

  /** Removing every ".mp4" shortens the path by four characters each. */
  lemma BasePathLength(path: Path)
    ensures |BasePath(path)| == |path| - 4 * Count(path, Ext)
  {
    ReplaceLength(path, Ext, "");
    assert |Ext| == 4 && |""| == 0;
  }

  lemma VersionPathLengths(path: Path)
    ensures |VersionPaths(path)| == 3
    ensures |VersionPaths(path)[0]| == |BasePath(path)| + 9
    ensures |VersionPaths(path)[1]| == |BasePath(path)| + 9
    ensures |VersionPaths(path)[2]| == |BasePath(path)| + 10
  {
    assert |Versions[0]| == 9 && |Versions[1]| == 9 && |Versions[2]| == 10;
  }

  /** A rendition path is never the upload's own path. */
  lemma VersionPathsAreNotSource(path: Path)
    ensures path !in VersionPaths(path)
  {
    BasePathLength(path);
    VersionPathLengths(path);
    var n := Count(path, Ext);
    assert 4 * n != 9 && 4 * n != 10;
  }

  // ---------------------------------------------------------------------------
  // The save hook

  /** The rendition a conversion adds: its target, if the encoder wrote it. */
  function Rendered(encodes: string -> bool, path: Path, resolution: string, tag: string): set<Path>
  {
    var target := Target(path, tag);
    if encodes(Command(path, resolution, target)) then {target} else {}
  }

  /**
    A new record without conflict: the converter starts three commands on the
    upload's own path, 480p then 720p then 1080p, and only after them is the upload
    removed; the files afterwards are the renditions the encoder wrote, without the
    upload.
   */
  lemma PostSaveCreated(st: Snapshot, encodes: string -> bool, instance: Video)
    requires FirstExisting(st.files, VersionPaths(instance.videoFile)).None?
    ensures var path := instance.videoFile;
      var r := PostSave(st, encodes, instance, true);
      var converted := st.files + Rendered(encodes, path, "hd480", "480p")
                                + Rendered(encodes, path, "hd720", "720p")
                                + Rendered(encodes, path, "hd1080", "1080p");
      r.raised.None? &&
      r.after.log == st.log
        + [Ran(Command(path, "hd480", Target(path, "480p"))),
           Ran(Command(path, "hd720", Target(path, "720p"))),
           Ran(Command(path, "hd1080", Target(path, "1080p")))]
        + (if path in converted then [Removed(path)] else []) &&
      r.after.files == converted - {path}
  {
    var path := instance.videoFile;
    var c := Conversions(st, encodes, path);
    ConversionsEffects(st, encodes, path);
    assert PostSave(st, encodes, instance, true) == Saved(None, RemovedIfPresent(c, path));
  }

  /** The three conversions start their commands in order and add what the encoder wrote. */
  lemma ConversionsEffects(st: Snapshot, encodes: string -> bool, path: Path)
    ensures var c := Conversions(st, encodes, path);
      c.log == st.log
        + [Ran(Command(path, "hd480", Target(path, "480p"))),
           Ran(Command(path, "hd720", Target(path, "720p"))),
           Ran(Command(path, "hd1080", Target(path, "1080p")))] &&
      c.files == st.files + Rendered(encodes, path, "hd480", "480p")
                          + Rendered(encodes, path, "hd720", "720p")
                          + Rendered(encodes, path, "hd1080", "1080p")
  {
    var st480 := Converted(st, encodes, path, "hd480", "480p");
    var st720 := Converted(st480, encodes, path, "hd720", "720p");
    assert st480.log == st.log + [Ran(Command(path, "hd480", Target(path, "480p")))];
    assert st720.log == st480.log + [Ran(Command(path, "hd720", Target(path, "720p")))];
  }

  /**
    "name.mp4" uploaded with no rendition present and the encoder succeeding three
    times: the upload is gone and its three renditions exist.
   */
  lemma PostSaveAllEncoded(st: Snapshot, encodes: string -> bool, stem: Path)
    requires !Contains(stem, Ext)
    requires forall p | p in VersionPaths(stem + Ext) :: p !in st.files
    requires encodes(Command(stem + Ext, "hd480", stem + "_480p.mp4"))
    requires encodes(Command(stem + Ext, "hd720", stem + "_720p.mp4"))
    requires encodes(Command(stem + Ext, "hd1080", stem + "_1080p.mp4"))
    ensures var r := PostSave(st, encodes, Video(stem + Ext, None), true);
      r.raised.None? &&
      r.after.files == st.files - {stem + Ext} + {stem + "_480p.mp4", stem + "_720p.mp4", stem + "_1080p.mp4"}
  {
    var path := stem + Ext;
    RenditionsOfStem(stem);
    assert FirstExisting(st.files, VersionPaths(path)).None?;
    PostSaveCreated(st, encodes, Video(path, None));
    VersionPathsAreNotSource(path);
  }

  /** The renditions of "name.mp4", spelled out. */
  lemma RenditionsOfStem(stem: Path)
    requires !Contains(stem, Ext)
    ensures Target(stem + Ext, "480p") == stem + "_480p.mp4"
    ensures Target(stem + Ext, "720p") == stem + "_720p.mp4"
    ensures Target(stem + Ext, "1080p") == stem + "_1080p.mp4"
    ensures VersionPaths(stem + Ext) == [stem + "_480p.mp4", stem + "_720p.mp4", stem + "_1080p.mp4"]
  {
    PrecheckMatchesConverter(stem);
    TargetOfStem(stem, "480p");
    TargetOfStem(stem, "720p");
    TargetOfStem(stem, "1080p");
    assert stem + "_" + "480p" + Ext == stem + "_480p.mp4";
    assert stem + "_" + "720p" + Ext == stem + "_720p.mp4";
    assert stem + "_" + "1080p" + Ext == stem + "_1080p.mp4";
  }

  /**
    If the encoder writes nothing, a new record's save still removes the upload:
    the code keeps neither the upload nor any rendition.
   */
  lemma PostSaveNothingEncoded(st: Snapshot, encodes: string -> bool, instance: Video)
    requires FirstExisting(st.files, VersionPaths(instance.videoFile)).None?
    requires !encodes(Command(instance.videoFile, "hd480", Target(instance.videoFile, "480p")))
    requires !encodes(Command(instance.videoFile, "hd720", Target(instance.videoFile, "720p")))
    requires !encodes(Command(instance.videoFile, "hd1080", Target(instance.videoFile, "1080p")))
    ensures PostSave(st, encodes, instance, true).after.files == st.files - {instance.videoFile}
  {
    PostSaveCreated(st, encodes, instance);
  }

  // ---------------------------------------------------------------------------
  // The delete hook

  /** The loop removes the visited paths and, once it has run at all, the thumbnail; nothing else. */
  lemma {:induction false} DeleteRunFiles(st: Snapshot, paths: seq<Path>, thumbnail: Option<Path>)
    ensures DeleteRun(st, paths, thumbnail).files
         == st.files - (set p | p in paths) - (if paths == [] then {} else ThumbnailFiles(thumbnail))
    decreases |paths|
  {
    if paths != [] {
      var front, last := paths[..|paths| - 1], paths[|paths| - 1];
      DeleteRunFiles(st, front, thumbnail);
      DeleteStepFiles(DeleteRun(st, front, thumbnail), last, thumbnail);
      assert (set p | p in paths) == (set p | p in front) + {last} by {
        assert paths == front + [last];
      }
    }
  }

  /** One pass removes its rendition path and the thumbnail, and nothing else. */
  lemma DeleteStepFiles(st: Snapshot, versionPath: Path, thumbnail: Option<Path>)
    ensures DeleteStep(st, versionPath, thumbnail).files == st.files - {versionPath} - ThumbnailFiles(thumbnail)
  {
  }

  /** With none of its files present, the loop changes nothing and removes nothing. */
  lemma {:induction false} DeleteRunUntouched(st: Snapshot, paths: seq<Path>, thumbnail: Option<Path>)
    requires forall i | 0 <= i < |paths| :: paths[i] !in st.files
    requires paths != [] ==> ThumbnailFiles(thumbnail) !! st.files
    ensures DeleteRun(st, paths, thumbnail) == st
    decreases |paths|
  {
    if paths != [] {
      var front := paths[..|paths| - 1];
      DeleteRunUntouched(st, front, thumbnail);
      assert paths[|paths| - 1] !in st.files;
    }
  }

  /** Every effect of the loop is the removal of a visited path or of the thumbnail. */
  lemma {:induction false} DeleteRunOnlyRemoves(st: Snapshot, paths: seq<Path>, thumbnail: Option<Path>)
    ensures var after := DeleteRun(st, paths, thumbnail);
      |st.log| <= |after.log| && after.log[..|st.log|] == st.log &&
      forall k | |st.log| <= k < |after.log| ::
        after.log[k].Removed? && (after.log[k].path in paths || after.log[k].path in ThumbnailFiles(thumbnail))
    decreases |paths|
  {
    if paths != [] {
      var front := paths[..|paths| - 1];
      DeleteRunOnlyRemoves(st, front, thumbnail);
      var mid := DeleteRun(st, front, thumbnail);
      var after := DeleteRun(st, paths, thumbnail);
      assert after.log[..|mid.log|] == mid.log;
      forall k | |st.log| <= k < |after.log|
        ensures after.log[k].Removed?
        ensures after.log[k].path in paths || after.log[k].path in ThumbnailFiles(thumbnail)
      {
        if k < |mid.log| {
          assert after.log[k] == mid.log[k];
          if mid.log[k].path in front {
            var j :| 0 <= j < |front| && front[j] == mid.log[k].path;
            assert paths[j] == front[j];
          }
        }
      }
    }
  }

  /**
    After the delete hook no rendition path exists, nor the thumbnail if the record
    has one, and every other path exists exactly when it did before.
   */
  lemma DeleteRemovesRenditions(st: Snapshot, instance: Video, p: Path)
    ensures var after := DeleteRun(st, VersionPaths(instance.videoFile), instance.thumbnail);
      (forall i | 0 <= i < |VersionPaths(instance.videoFile)| :: VersionPaths(instance.videoFile)[i] !in after.files) &&
      (instance.thumbnail.Some? ==> instance.thumbnail.value !in after.files) &&
      (p !in VersionPaths(instance.videoFile) && p !in ThumbnailFiles(instance.thumbnail) ==>
        (p in after.files <==> p in st.files))
  {
    DeleteRunFiles(st, VersionPaths(instance.videoFile), instance.thumbnail);
  }

  /** The delete hook never removes the upload itself, unless it is also the thumbnail. */
  lemma DeleteKeepsUpload(st: Snapshot, instance: Video)
    requires instance.thumbnail != Some(instance.videoFile)
    ensures var after := DeleteRun(st, VersionPaths(instance.videoFile), instance.thumbnail);
      instance.videoFile in after.files <==> instance.videoFile in st.files
  {
    VersionPathsAreNotSource(instance.videoFile);
    DeleteRemovesRenditions(st, instance, instance.videoFile);
  }

  /** Running the delete hook again changes nothing and removes nothing. */
  lemma DeleteIdempotent(st: Snapshot, instance: Video)
    ensures var once := DeleteRun(st, VersionPaths(instance.videoFile), instance.thumbnail);
      DeleteRun(once, VersionPaths(instance.videoFile), instance.thumbnail) == once
  {
    var paths := VersionPaths(instance.videoFile);
    var once := DeleteRun(st, paths, instance.thumbnail);
    DeleteRunFiles(st, paths, instance.thumbnail);
    DeleteRunUntouched(once, paths, instance.thumbnail);
  }
}
