# Random video picker — session store and preview cache

This project models the core of a desktop "random video picker" in Dafny.

**`VideoScanner`** (`scanner.dfy`, using `paths.dfy` and `recency.dfy`) is the session store. It:

- scans a folder recursively for files with a video extension (`.mp4 .mkv .avi .mov .webm`, in any letter case);
- hands out a random video that has not been played yet, and starts a fresh session once every video has been played;
- records each video as played or skipped;
- keeps a list of the ten most recently played videos, most recent first;
- writes the session to a JSON state file and reads it back. On reading, every path is passed through a check against ".." traversal and against leaving the saved folder.

The model is a class with the four fields of the Python object. The file system enters as parameters:

- the directory walk, as a sequence of entries;
- whether the folder exists;
- `Path.resolve`, as a function from strings to component lists;
- the state file before and after an operation, as a value.

**`VideoPreview.get_video_info`** (`preview_cache.dfy`) keeps a cache. It is one insertion-ordered dictionary shared with the ffmpeg-availability flag (and with cached durations). On a miss, the new entry is stored, and once the dictionary holds more than 50 keys it is cut back to its newest 25. The model is a class whose dictionary is a key sequence plus a map.

**`VideoPreview._format_duration`** (`duration.dfy`) formats a duration given in seconds:

- `MM:SS` below one hour;
- `HH:MM:SS` from one hour on;
- "Unknown" when the duration is not positive.

It is modelled over `real`, with Python's float `//` and `%` written out through `Floor`.

Main results:

- **Recency list.** `Recency.RecentIsLastDistinct` proves what it holds after any history of plays. Every `VideoScanner` operation except `LoadState` keeps the recency list duplicate-free, bounded and inside the played set (`Scanner.Tidy`); `Scanner.LoadIgnoresTidiness` shows a load that does not.
- **Random picks.** Picks made from the unplayed pool never repeat until the pool is exhausted.
- **Save and load.** A save followed by a load restores the session when every path is valid. Traversal strings never survive a load.
- **Preview cache.** A miss leaves at most 50 keys, in insertion order, the newest of them kept.
- **Duration text.** The formatted text reads back as the whole seconds of the duration.

## Model

| member | source | states |
|---|---|---|
| Paths.BaseName | video_preview.py:224 | `Path.name` is a tail of the path that contains no `/` and is either the whole path or starts right after a `/`: the text after the last separator |
| Paths.Suffix | video_scanner.py:60 | `Path.suffix`; its properties are stated by `Paths.VideoSuffixIffEndsWith`, `Paths.AcceptedExamples` and `Paths.RefusedExamples` |
| Paths.Within | video_scanner.py:151-157 | `relative_to` succeeding, read as the base's components being a prefix of the path's; used by `Paths.ValidatePath`, whose contract states the containment rule |
| Paths.LastIndexOf | video_scanner.py:60 | `str.rfind` as `Path.suffix` uses it: -1 or an index holding the character, with no occurrence after it |
| Paths.LowerChar | video_scanner.py:60 | `str.lower` on one character, ASCII only: an upper-case letter becomes the same letter in lower case, every other character is kept, and no upper-case letter remains |
| Paths.Lower | video_scanner.py:60 | `str.lower` on a string: the same length, each character lowered by `Paths.LowerChar` |
| Paths.HasVideoSuffix | video_scanner.py:60 | the scan's test `suffix.lower() in self.video_extensions`; stated by `Paths.VideoSuffixIffEndsWith`, `Paths.AcceptedExamples` and `Paths.RefusedExamples` |
| Paths.VideoSuffixIffEndsWith | video_scanner.py:59-60 | the scan's test `suffix.lower() in video_extensions` holds exactly when the name ends (ignoring ASCII case) in one of the five extensions and something precedes it |
| Paths.AcceptedExamples | video_scanner.py:15 | "movie.MP4" and "clip.mkv" are accepted (upper-case extensions match) |
| Paths.RefusedExamples | video_scanner.py:60 | "doc.txt", "noext" and ".mp4" (a hidden file, whose suffix is empty) are refused |
| Paths.HasDotDot | video_scanner.py:146 | `'..' in s` holds exactly when two adjacent characters of `s` are both dots |
| Paths.ValidatePath | video_scanner.py:130-162 | a path is accepted iff it resolves, contains no "..", and (with a base) its resolved form lies under the resolved base; an accepted path is returned as the original text |
| Paths.TraversalRejected | video_scanner.py:145-148 | "../../etc/passwd" is refused with or without a base, whatever resolution yields |
| Recency.RemoveFirst | video_scanner.py:95-96 | `list.remove` guarded by `in`; stated by `Recency.RemoveFirstSpec` and `Recency.RemoveFirstNoDup` |
| Recency.Touch | video_scanner.py:94-101 | the recency-list update of `mark_played`; stated by `Recency.TouchFront`, `Recency.TouchKeepsOrder`, `Recency.TouchElements`, `Recency.TouchNoDup` and `Recency.RecentIsLastDistinct` |
| Recency.RemoveFirstSpec | video_scanner.py:95-96 | `list.remove` deletes exactly the first occurrence and keeps the rest in order; an absent value leaves the list unchanged |
| Recency.RemoveFirstNoDup | video_scanner.py:95-96 | on a duplicate-free list, removal keeps it duplicate-free and removes the value's only occurrence |
| Recency.TouchFront | video_scanner.py:97-101 | after `mark_played(v)` the list starts with `v`, has at most 10 entries, and its length is the old one (plus one if `v` was new), capped at 10 |
| Recency.TouchKeepsOrder | video_scanner.py:95-101 | the entries behind `v` are a prefix of the old list minus `v`'s first occurrence |
| Recency.TouchElements | video_scanner.py:90-101 | after `mark_played(v)` the list contains `v` and otherwise only entries it held before |
| Recency.TouchNoDup | video_scanner.py:94-101 | `mark_played` keeps a duplicate-free recency list duplicate-free |
| Recency.TouchOfTake | video_scanner.py:94-101 | playing `v` on the first 10 entries of a duplicate-free list gives the first 10 entries of that list with `v` moved or added to the front |
| Recency.RecentIsLastDistinct | video_scanner.py:90-101 | starting empty, after any history of plays the list is exactly the 10 most recently played distinct videos, most recent first |
| Scanner.IsVideoFile | video_scanner.py:60 | the scan's test on a walked entry: a regular file whose name has a video suffix; stated by `Scanner.VideoFilesOfMembers` |
| Scanner.VideoFilesOf | video_scanner.py:59-61 | the videos a scan of a walk finds, in walk order; stated by `Scanner.VideoFilesOfAppend` and `Scanner.VideoFilesOfMembers`, and computed by `Scanner.CollectVideos` |
| Scanner.VideoFilesOfAppend | video_scanner.py:59-61 | scanning is compositional over the walk: the found videos keep traversal order |
| Scanner.VideoFilesOfMembers | video_scanner.py:59-61 | a path is found iff the walk yields it as a regular file with a video extension |
| Scanner.Unplayed | video_scanner.py:78-81 | the pick pool is no longer than the file list and holds exactly the files not played |
| Scanner.UnplayedEmptyIffExhausted | video_scanner.py:83-86 | the pool is empty exactly when every found video has been played (the reset case) |
| Scanner.NoRepeatUntilExhausted | video_scanner.py:65-88 | successive picks from the unplayed pool, each then marked played, are pairwise distinct, are unplayed videos, and are no more numerous than the unplayed videos |
| Scanner.ValidEntries | video_scanner.py:206-227 | a saved list filtered by `_validate_path` against the folder; stated by `Scanner.ValidEntriesMembers`, `Scanner.ValidEntriesAppend` and `Scanner.ValidEntriesAllValid` |
| Scanner.Restore | video_scanner.py:197-227 | the session `load_state` installs from a snapshot; stated by `Scanner.SaveLoadRoundTrip`, `Scanner.TraversalOnLoad`, `Scanner.DoubleDotNameLostOnReload` and `Scanner.LoadIgnoresTidiness` |
| Scanner.ValidEntriesMembers | video_scanner.py:204-227 | an entry survives loading iff it was saved and passes validation against the restored folder |
| Scanner.ValidEntriesAppend | video_scanner.py:213-219 | loading a list keeps the saved order of its surviving entries |
| Scanner.ValidEntriesAllValid | video_scanner.py:204-227 | a list whose entries are all valid is read back unchanged |
| Scanner.SaveLoadRoundTrip | video_scanner.py:164-232 | a saved session whose paths are all valid is restored exactly (the played set in any listing order) |
| Scanner.TraversalOnLoad | video_scanner.py:197-211 | a traversal entry never enters the played set of a successful load; a folder containing ".." makes the load fail |
| Scanner.DoubleDotNameLostOnReload | video_scanner.py:146-148 | a video the scan accepts ("clip..mp4") is dropped from all three collections on reload, because the ".." test is on the text |
| Scanner.LoadIgnoresTidiness | video_scanner.py:213-219 | a file listing a valid video twice as recent, and not as played, loads with that repeated entry: the load does not restore the relation the other operations keep |
| Scanner.TouchKeepsTidy | video_scanner.py:90-101 | `mark_played` keeps the recency list duplicate-free, at most 10 long and inside the played set |
| Scanner.ListOfSet | video_scanner.py:171 | the played set is written as a list holding each member exactly once |
| Scanner.CollectVideos | video_scanner.py:59-61 | the loop of `scan_folder` collects exactly the walk's video files, in walk order |
| Scanner.KeepValid | video_scanner.py:213-227 | each list-rebuilding loop of `load_state` produces the saved entries that pass validation, in saved order |
| Scanner.KeepValidSet | video_scanner.py:205-211 | the played-set loop of `load_state` produces the set of saved entries that pass validation |
| Scanner.VideoScanner.constructor | video_scanner.py:14-20 | a new scanner has no folder and empty collections |
| Scanner.VideoScanner.ScanFolder | video_scanner.py:35-63 | for every walk the model can express (a walk that raises is under Left out): fails, changing nothing, iff the folder is missing or does not exist; otherwise sets the folder, finds exactly the walk's video files in order, returns their count, keeps or clears played/recent per `persistent`, and keeps the recency relation |
| Scanner.VideoScanner.GetRandomVideo | video_scanner.py:65-88 | `None` iff no videos, and then nothing changes; otherwise an unplayed video, with nothing changed; when all are played, a reset and any video |
| Scanner.VideoScanner.MarkPlayed | video_scanner.py:90-101 | the video joins the played set and heads the recency list, which keeps at most 10 entries; the folder and files are unchanged; the recency relation is kept |
| Scanner.VideoScanner.SkipVideo | video_scanner.py:103-106 | the video joins the played set, the recency list is unchanged, and progress rises by one for a new video |
| Scanner.VideoScanner.ResetSession | video_scanner.py:108-111 | played and recent are emptied; files and folder are kept |
| Scanner.VideoScanner.Progress | video_scanner.py:113-122 | (played count, found count) |
| Common.PrefixUpTo | video_scanner.py:127 | Python's `s[:n]`: a prefix of `s` of length `min(n, len(s))` for `n >= 0` and `max(0, len(s) + n)` for `n < 0` |
| Scanner.VideoScanner.RecentVideos | video_scanner.py:124-128 | a prefix of the recency list: the whole list for no limit or 0, `min(limit, n)` entries for a positive limit, all but the last `-limit` for a negative one |
| Scanner.VideoScanner.SaveState | video_scanner.py:164-180 | nothing is written without a folder or when the write fails; otherwise the file holds the folder, each played video once, and the recent and found lists unchanged |
| Scanner.VideoScanner.LoadState | video_scanner.py:182-232 | succeeds iff the file exists, parses and its folder validates; a failure changes nothing; a success sets the state to the snapshot filtered by validation |
| Scanner.VideoScanner.ClearSavedState | video_scanner.py:234-240 | the state file is gone afterwards unless removal fails, when it is left in place |
| PreviewCache.Put | video_preview.py:229 | key order after dictionary assignment; stated by `PreviewCache.PutNoDup` |
| PreviewCache.Trimmed | video_preview.py:231-235 | key order after the cut; stated by `PreviewCache.MissOutcome` |
| PreviewCache.GrownKeys | video_preview.py:199-229 | key order after a miss, before the cut; stated by `PreviewCache.GrownEndsWithVideo` and `PreviewCache.MissOutcome` |
| PreviewCache.InfoFields | video_preview.py:224-225 | the stored information has exactly the computed keys plus "name" and "path"; it holds the video's name and path and every other field computed for it |
| PreviewCache.PutNoDup | video_preview.py:229 | setting a key keeps the keys distinct and adds the key |
| PreviewCache.GrownEndsWithVideo | video_preview.py:199-229 | after a miss the video's key is the newest, at most two keys having been added |
| PreviewCache.MissOutcome | video_preview.py:228-235 | after a miss at most 50 keys remain, the video's among them; nothing is evicted while the dictionary has at most 50 keys; otherwise exactly its newest 25 remain, in order |
| PreviewCache.VideoPreview.constructor | video_preview.py:33 | the cache starts empty |
| PreviewCache.Truthy | video_preview.py:68-69 | Python's truth value of a cached entry: a flag's own value, a non-zero duration, a non-empty dictionary. `check_ffmpeg` returns the cached entry itself; the model returns its truth value, which is all its callers at video_preview.py:93 and 199 use |
| PreviewCache.VideoPreview.CheckFfmpeg | video_preview.py:64-80 | with a cached entry, its truth value (`PreviewCache.Truthy`) is returned and nothing changes; otherwise the probe's answer is returned and cached as the newest key |
| PreviewCache.VideoPreview.GetVideoInfo | video_preview.py:172-237 | for a probe that answers (a raising probe is under Left out): a hit returns the cached entry and changes nothing; a miss returns and stores the new information, leaves the keys in the trimmed insertion order, and changes no other entry except the ffmpeg flag it may add |
| PreviewCache.VideoPreview.Store | video_preview.py:227-235 | the entry is set and the cache trimmed; the keys are the trimmed insertion order and surviving entries are unchanged |
| PreviewCache.VideoPreview.EvictOldest | video_preview.py:231-235 | deletes every key but the newest 25, leaving the others' entries unchanged |
| Duration.DecimalRoundTrip | video_preview.py:336-338 | decimal text of a number is all digits and reads back as the number; two digits for 10..99 |
| Duration.Pad2RoundTrip | video_preview.py:336-338 | a `:02d` field is all digits, reads back as its value, has two characters below 100 and at least two always |
| Duration.DecimalString | video_preview.py:336-338 | the digits `:02d` writes; stated by `Duration.DecimalRoundTrip` and `Duration.DecimalLeading` |
| Duration.DecimalLeading | video_preview.py:336-338 | the decimal text of a positive number has no leading zero, and three digits or more from 100 on |
| Duration.Pad2 | video_preview.py:336-338 | the `:02d` format; stated by `Duration.Pad2RoundTrip` and `Duration.Pad2Width` |
| Duration.Pad2Width | video_preview.py:336-338 | a `:02d` field has exactly two characters below 100 and more from 100 on, and a leading zero only below 10 |
| Duration.FloorQuotient | video_preview.py:331 | float `//` by a positive integer, on a non-negative value, is integer division of its whole part |
| Duration.FloorRemainder | video_preview.py:332-333 | float `%` by a positive integer, on a non-negative value, is non-negative and its whole part is the integer remainder of the value's whole part |
| Duration.Fields | video_preview.py:331-333 | hours, minutes and seconds are the whole seconds split into h·3600 + m·60 + s with 0 ≤ m, s < 60 |
| Duration.ClockLength | video_preview.py:335-338 | the text has five characters without hours and at least eight with them |
| Duration.Clock | video_preview.py:335-338 | the two f-strings, chosen by `hours > 0`; stated by `Duration.ClockLength`, `Duration.ShortClock`, `Duration.LongClock` and `Duration.HoursWidth` |
| Duration.HoursWidth | video_preview.py:335-336 | the hours field of `HH:MM:SS` is two digits exactly below 100 hours, and has a leading zero only below 10 hours |
| Duration.ShortClock | video_preview.py:337-338 | without hours the text is `MM:SS`, whose fields read back as the minutes and seconds |
| Duration.LongClock | video_preview.py:335-336 | with hours the text is `H..H:MM:SS`, whose three fields read back as the hours, minutes and seconds |
| Duration.FormatDuration | video_preview.py:326-338 | `_format_duration`; stated by `Duration.UnknownIffNotPositive` and `Duration.FormatDurationShape` |
| Duration.UnknownIffNotPositive | video_preview.py:328-329 | the text is "Unknown" exactly when the duration is not positive |
| Duration.FormatHoursWidth | video_preview.py:331-336 | from one hour on, the text has eight characters exactly below 100 hours, and starts with a zero only below 10 hours |
| Duration.ClockReadsBack | video_preview.py:326-338 | `MM:SS` (five characters) exactly below one hour, `H..H:MM:SS` from one hour on; minute and second fields are two digits below 60; reading the text back gives the whole seconds |
| Duration.FormatDurationShape | video_preview.py:326-338 | `MM:SS` (five characters) exactly below one hour; from one hour on `HH:MM:SS` whose hours field has exactly two digits below 100 hours (eight characters) and a leading zero only below 10 hours, so the hours are written as `:02d` writes them; minute and second fields are two digits below 60; reading the text back gives the whole seconds |

## Left out

- File system, JSON and I/O.
  - The directory walk (`rglob`), `exists`, `is_file`, `resolve`, opening and writing files, and JSON parsing are all parameters.
  - A JSON decoding error and a missing file are the `Unparsable` and `NoFile` cases of the state file.
  - `Path.resolve()` raises `RuntimeError` on a symlink loop (Python 3.9 to 3.12). Neither the handler of `_validate_path` (video_scanner.py:160) nor that of `load_state` (video_scanner.py:230) catches it, so `load_state` raises after it may already have replaced `current_folder` (video_scanner.py:202) and part of `played_videos` (video_scanner.py:205-209). The model's resolver has no raising outcome, so `LoadState` always ends in a full restore or in no change.
  - Scanning a folder that can be listed but not entered makes `Path.is_file()` at video_scanner.py:60 raise `PermissionError` (Python 3.9 to 3.12 re-raise EACCES from `stat`). `scan_folder` does not catch it, and by then it has set `current_folder` (video_scanner.py:52), cleared `video_files` (video_scanner.py:53) and, unless `persistent`, cleared `played_videos` and `recent_videos` (video_scanner.py:55-57); the caller at random_video_picker.py:896 catches it. The model's walk entries cannot raise, so `ScanFolder` fails only when the folder is missing or absent, and then changes nothing.
  - `check_ffmpeg` catches only `CalledProcessError`, `FileNotFoundError` and `TimeoutExpired` (video_preview.py:76). Any other error from `subprocess.run`, such as `PermissionError` for a non-executable `ffmpeg` on the search path, escapes it, and since the call at video_preview.py:199 is outside the `try` at line 200, `get_video_info` raises with nothing stored for the video (the cache is otherwise unchanged). The model's probe is the boolean `ffmpegFound`, so its miss always stores.
  - A state file whose bytes do not decode as text makes `json.load` raise `UnicodeDecodeError`, which the handler at video_scanner.py:230 does not catch, so `load_state` raises; the model's `Unparsable` case returns false instead.
  - A partial write is not modelled.
  - JSON values of the wrong type are not modelled. For example, a number where a list is expected makes `load_state` raise a `TypeError` that the code does not catch.
- Paths.
  - Paths are POSIX strings.
  - `Path`'s own normalisation of the text (repeated slashes, `.` components, trailing slashes) and Windows separators are not modelled.
  - `str.lower()` is modelled for ASCII letters only.
- Configuration location.
  - The choice of the state file's location (portable mode versus the home directory) is not modelled, and neither is the creation of the configuration directory.
  - The constructor models the collections only.
- Other parts of the application.
  - The GUI, the video player launcher, thumbnail generation and cleanup, and `_get_video_duration` are not part of this model.
  - Neither are the file-size and timestamp formatting of `video_preview.py`.
  - The `stat` and `ffprobe` calls of `get_video_info` are the parameter `computed` (the fields they produced).
  - The ffmpeg probe's outcome is the parameter `ffmpegFound`.
- Concurrency.
  - The cache lock and threading are not modelled.
  - Each operation is atomic in the model.
- Logging. The warnings and errors logged at video_scanner.py:147, 156, 161, 180, 199, 211, 219, 227, 231 and 240 are not modelled; they do not affect the state or the results.
- Randomness. `random.choice` is an arbitrary choice from the pool. Uniformity is not modelled.
- Scanner.VideoScanner.GetRandomVideo: `include_skipped` is accepted and ignored, as it is in the source.
- Duration.FormatDurationShape: floating-point rounding is not modelled.
  - Durations are exact reals.
  - Python's `int()` truncation equals `Floor` on the non-negative values involved.
- Scanner.VideoScanner.LoadState: a missing `current_folder` key is read as `""`, which the model accepts like the source does. `Path('')` is truthy and resolves, so a state file without a folder still loads, anchored at `""`; the "Invalid current_folder" error at video_scanner.py:197-199 is reached only when validation rejects the folder, not when the key is missing. The model follows the code.
