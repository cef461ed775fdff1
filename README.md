# Streamada video-file lifecycle, modelled in Dafny

Streamada is a Django video-hosting backend. Its only logic with ordering and
failure behaviour is what happens to the files of a video record:

- `convert_video` (streamada/tasks.py) derives a rendition path from the upload's
  path with Python's `str.replace('.mp4', '_<label>.mp4')`, starts ffmpeg through a
  shell command line and returns the derived path, whatever ffmpeg does.
- `video_post_save` (streamada/signals.py) runs after every save. For a new record
  it first checks that none of the three rendition paths (`_480p.mp4`, `_720p.mp4`,
  `_1080p.mp4` appended to the upload's path with every ".mp4" removed) exists, and
  raises `ValueError` naming the first one that does. Otherwise it converts three
  times, synchronously, 480p then 720p then 1080p. Then, on every save that did not
  raise, it removes the raw upload if it exists.
- `auto_delete_file_on_delete` runs after a delete and removes every rendition that
  exists and, inside the same loop, the thumbnail if the record has one and it
  exists (so the thumbnail removal is attempted up to three times).

The model:

- `pystr.dfy` (module `PyStr`): Python's `str.replace`, `str.count` and `in`, with
  the left-to-right, non-overlapping, replace-all semantics (an empty pattern is
  handled as Python does), and lemmas about them.
- `shell.dfy` (module `Shell`): how `/bin/sh` splits a command line into words, for
  spaces and double quotes; it is the partner against which the ffmpeg command
  string is checked.
- `host.dfy` (module `Host`): class `Host`, the machine the hooks run on: the set
  of existing files (`os.path.isfile` is membership, `os.remove` removal), a log of
  effects (commands started, files removed) that records their order, and the
  encoder as an oracle `encodes` that says, per command line, whether ffmpeg writes
  its output file or nothing.
- `tasks.dfy` (module `Tasks`): `convert_video`.
- `signals.dfy` (module `Signals`): both hooks as methods on a `Host`, each proved
  against a function on host snapshots (`PostSave`, `DeleteRun`), with the
  properties proved about those functions.
- `wrappers.dfy` (module `Wrappers`): `Option`, used for the optional thumbnail.

Where the code does not do what a reader might expect (a job queue, conversions
skipped after a failed one, the upload deleted only once its renditions exist, a
precheck that inspects the files the converter will write), the model follows the
code, and lemmas state the consequences:

- There is no queue: the three conversions run synchronously, and none is skipped
  when an earlier one fails (ffmpeg's exit status is ignored).
- The raw upload is removed after every save that does not raise, even when no
  rendition was written (`Signals.PostSaveNothingEncoded`), and even on saves of an
  existing record.
- The precheck removes every ".mp4" and appends the suffix, while the converter
  replaces every ".mp4". For an upload "name.mp4" with no other ".mp4" the three
  precheck paths are the three targets (`Signals.PrecheckMatchesConverter`). For
  every other upload path (no ".mp4", two or more, or a single one not at the end,
  such as "c.mp4.mov") no precheck path is any of the three targets
  (`Signals.PrecheckMissesConverter`). Without ".mp4" the converter's target is the
  upload itself (`Tasks.TargetWithoutExt`).
- The delete hook does not remove the raw upload (`Signals.DeleteKeepsUpload`);
  it relies on the save hook having removed it.

## Model

| member | source | states |
|---|---|---|
| `PyStr.Replace` | streamada/tasks.py:9 | Python's `str.replace` with every occurrence replaced left to right; also used at streamada/signals.py:15 and 36; described by `ReplaceLength`, `ReplaceSkipsPrefix`, `ReplaceAbsent`, `ReplaceOnce` |
| `PyStr.ReplaceLength` | streamada/tasks.py:9 | `str.replace` changes the length by `count * (len(new) - len(old))` |
| `PyStr.CountZeroIffAbsent` | streamada/tasks.py:9 | for a non-empty pattern, `count == 0` exactly when the pattern is not `in` the string |
| `PyStr.ReplaceSkipsPrefix` | streamada/tasks.py:9 | a prefix in which no occurrence starts is copied unchanged by `str.replace` |
| `PyStr.ReplaceAbsent` | streamada/tasks.py:9 | replacing a pattern that does not occur returns the string unchanged |
| `PyStr.ReplaceSeparatesReplacements` | streamada/tasks.py:9 | two different replacements of equal length give different results once the pattern occurs |
| `PyStr.ReplaceAvoids` | streamada/tasks.py:9 | characters absent from the subject and the replacement are absent from the result |
| `PyStr.FirstOccurrence` | streamada/tasks.py:9 | a pattern that is counted occurs, and no occurrence starts before the one found |
| `PyStr.ReplaceOnce` | streamada/tasks.py:9 | a pattern counted once splits the string into two parts without it, and `str.replace` puts the new text between them |
| `Tasks.Target` | streamada/tasks.py:9 | the path `convert_video` derives and returns; described by `TargetOfStem`, `TargetWithoutExt`, `TargetLength`, `TargetsDistinct`, `TargetEndsWithExt` |
| `Tasks.Command` | streamada/tasks.py:10 | the command line holds the source, the frame size and the target at fixed offsets, in that order |
| `Tasks.CommandArguments` | streamada/tasks.py:10 | split by the shell, the command line is the argument vector `ffmpeg -i <source> -s <size> -c:v libx264 -crf 23 -c:a aac -strict -2 <target>` |
| `Tasks.ConvertArguments` | streamada/tasks.py:9-11 | the command `convert_video` starts passes ffmpeg the source and the derived target as single arguments |
| `Tasks.Converted` | streamada/tasks.py:9-11 | the host after one conversion: the command for the derived target is logged and the target added iff the encoder writes it; `ConvertVideo` is proved against it |
| `Tasks.ConvertVideo` | streamada/tasks.py:5-12 | returns the derived target whatever the encoder does; starts exactly one command; adds at most its target |
| `Tasks.ExtOnlyAtEnd` | streamada/tasks.py:9 | in "name.mp4" with no ".mp4" in "name", ".mp4" starts nowhere before the suffix |
| `Tasks.ReplaceTrailingExt` | streamada/tasks.py:9 | in that case `replace('.mp4', r)` gives "name" followed by `r` |
| `Tasks.TargetOfStem` | streamada/tasks.py:9 | "name.mp4" gives "name_<label>.mp4" |
| `Tasks.TargetWithoutExt` | streamada/tasks.py:9 | a source without ".mp4" is its own target |
| `Tasks.TargetLength` | streamada/tasks.py:9 | the target is longer than the source by `count('.mp4') * (len(label) + 1)` |
| `Tasks.TargetsDistinct` | streamada/tasks.py:9 | once ".mp4" occurs, the 480p, 720p and 1080p targets are pairwise distinct and differ from the source |
| `Tasks.TargetsLonger` | streamada/tasks.py:9 | once ".mp4" occurs, every target is longer than the source, and the 1080p target longer than the other two |
| `Tasks.TargetEndsWithExt` | streamada/tasks.py:9 | with at most one ".mp4" in the source, the target ends with ".mp4" only for a source "name.mp4" |
| `Tasks.TargetQuotable` | streamada/tasks.py:9 | a target derived from a source and label free of shell-special characters is free of them too |
| `Host.Host.IsFile` | streamada/signals.py:19 | `os.path.isfile` answers membership in the set of existing files |
| `Host.Host.Remove` | streamada/signals.py:28 | `os.remove` takes exactly that path out of the set and logs the removal |
| `Host.Host.Run` | streamada/tasks.py:11 | `subprocess.run` logs the command and adds its output file iff the encoder writes it |
| `Host.RemovedIfPresent` | streamada/signals.py:27-28 | the guarded removal leaves the path absent, removes nothing else and logs a removal only if the path existed |
| `Signals.SaveError.Message` | streamada/signals.py:20 | the `ValueError` message names the conflicting path |
| `Signals.BasePath` | streamada/signals.py:15 | the upload's path with every ".mp4" removed; described by `BasePathLength`, `BasePathOfStem` |
| `Signals.VersionPaths` | streamada/signals.py:16-18 | the three paths both hooks inspect, in order; described by `VersionPathLengths`, `VersionPathEndsWithExt`, `VersionPathsAreNotSource`, `PrecheckMatchesConverter`, `PrecheckMissesConverter` |
| `Signals.FirstExisting` | streamada/signals.py:17-20 | none is found iff no candidate exists; otherwise the one found exists and every earlier candidate does not |
| `Signals.Precheck` | streamada/signals.py:15-20 | the check visits 480p, 720p, 1080p in order, changes nothing and reports the first existing path |
| `Signals.Conversions` | streamada/signals.py:22-24 | the host after the three conversions, 480p, 720p, 1080p; described by `ConversionsEffects` |
| `Signals.ConversionsEffects` | streamada/signals.py:22-24 | the three conversions log their commands in order and add exactly the renditions the encoder wrote |
| `Signals.PostSave` | streamada/signals.py:9-28 | raises iff the record is new and a rendition path exists, naming the first, and then leaves the host unchanged; otherwise the upload is absent afterwards; for an existing record its removal is the only change |
| `Signals.VideoPostSave` | streamada/signals.py:9-28 | the hook's effect on the host and its raised error are those of `PostSave` |
| `Signals.PostSaveCreated` | streamada/signals.py:22-28 | without conflict: three commands on the upload's own path, 480p, 720p, 1080p, then the upload's removal; the files are the written renditions without the upload |
| `Signals.RenditionsOfStem` | streamada/signals.py:15-24 | for "name.mp4", both the precheck paths and the targets are "name_480p.mp4", "name_720p.mp4", "name_1080p.mp4" |
| `Signals.PostSaveAllEncoded` | streamada/signals.py:15-28 | "name.mp4" with no rendition present and three successful encodes ends with the upload gone and its three renditions present |
| `Signals.PostSaveNothingEncoded` | streamada/signals.py:22-28 | when the encoder writes nothing, the upload is removed anyway |
| `Signals.PrecheckMatchesConverter` | streamada/signals.py:15-18 | for "name.mp4" with one ".mp4", the precheck's paths are the converter's targets |
| `Signals.PrecheckMissesConverter` | streamada/signals.py:15-18 | for every upload path other than "name.mp4" with a single ".mp4", none of the three precheck paths is any of the three targets |
| `Signals.VersionPathMissesTarget` | streamada/signals.py:15-18 | one precheck path against one target: different unless the upload is "name.mp4" with a single ".mp4" |
| `Signals.ManyExtLengths` | streamada/signals.py:15-18 | with two or more ".mp4", every precheck path is shorter than every target |
| `Signals.BasePathOfStem` | streamada/signals.py:15 | the base path of "name.mp4" is "name" when "name" holds no ".mp4" |
| `Signals.VersionPathEndsWithExt` | streamada/signals.py:16-18 | every precheck path ends with ".mp4" |
| `Signals.BasePathLength` | streamada/signals.py:15 | removing every ".mp4" shortens the path by four characters each |
| `Signals.VersionPathLengths` | streamada/signals.py:16-18 | there are three rendition paths, 9, 9 and 10 characters longer than the base path |
| `Signals.VersionPathsAreNotSource` | streamada/signals.py:36-39 | no rendition path is the upload's own path |
| `Signals.DeleteStep` | streamada/signals.py:39-45 | one pass of the delete loop: the rendition path, then the thumbnail, each removed if present; described by `DeleteStepFiles` |
| `Signals.DeleteStepFiles` | streamada/signals.py:39-45 | one pass removes its rendition path and the thumbnail, and no other file |
| `Signals.DeleteRun` | streamada/signals.py:38-45 | the delete loop over a list of paths; described by `DeleteRunFiles`, `DeleteRunUntouched`, `DeleteRunOnlyRemoves`, `DeleteIdempotent` |
| `Signals.AutoDeleteFileOnDelete` | streamada/signals.py:32-45 | the hook's effect on the host is the loop function `DeleteRun` over the three rendition paths and the thumbnail |
| `Signals.DeleteRunFiles` | streamada/signals.py:38-45 | the loop removes exactly the visited paths and, once it has run, the thumbnail |
| `Signals.DeleteRunUntouched` | streamada/signals.py:40-45 | with none of those files present the loop changes and logs nothing |
| `Signals.DeleteRunOnlyRemoves` | streamada/signals.py:38-45 | every effect of the loop is the removal of a rendition path or of the thumbnail, appended to the earlier log |
| `Signals.DeleteRemovesRenditions` | streamada/signals.py:36-45 | afterwards no rendition and no thumbnail exists; every other path exists iff it did before |
| `Signals.DeleteKeepsUpload` | streamada/signals.py:36-45 | the delete hook does not remove the upload (unless it is also the thumbnail) |
| `Signals.DeleteIdempotent` | streamada/signals.py:40-45 | a second run changes no file and logs no effect |

## Left out

- Console output: `print('New Video created')` (streamada/signals.py:12) has no effect on files.
- ffmpeg itself: what it encodes, how long it runs, partial output, its prompt on an existing output file and its exit status (ignored by the code) are reduced to the `encodes` oracle: the output file is written or nothing is.
- Filesystem failures: `os.path.isfile` is membership in a set of regular files; `os.remove` on an existing file always succeeds (no permissions, no races).
- Django's signal dispatch (`@receiver`, `sender`), the model's storage (`upload_to`, `FieldFile.path`) and what happens to the record when the save hook raises: the hooks are called directly with the record's paths.
- Concurrency: two uploads of the same file name, or a delete while a save is converting, are not modelled; the code has no locking to model.
- A job queue, dependency scheduling, skip propagation and retries: the code has none (`django_rq` is configured in app_settings/settings.py but never used by the hooks).
- streamada/models.py beyond the two paths and the optional thumbnail; settings, views, serializers, admin, apps and tests hold no file lifecycle logic.
- Host.Host.Run: the command line is run with `shell=True` (streamada/tasks.py:10-11), so an upload path containing, say, `$(touch x)` makes the shell create or delete other files; the model assumes the shell hands ffmpeg exactly its argument vector and that ffmpeg writes its output file or nothing, which `Tasks.ConvertArguments` justifies only for paths without `"`, `\`, `$` and backquote. The file sets stated by `Signals.PostSaveCreated`, `Signals.PostSaveAllEncoded` and `Signals.PostSaveNothingEncoded` rest on this assumption.
- Tasks.CommandArguments: proved only for paths without `"`, `\`, `$` and backquote and a frame size without spaces or shell operators; for other inputs the shell's reading of the command line is not modelled.
