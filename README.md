# photo_sort — a verified model of the ordering and naming engine

photo_sort gathers the photos and videos of one event from several input
directories and puts them in time order. It then copies them into a new
output folder named after the year, the event and the photographer. Each
copy is named by its position, the event, the year, the photographer and
its original extension. Videos are later re-encoded to `.mp4`.

This project models the decisions that engine makes. It covers the
following; the loops and the index, the search and the plan are proved
against independent statements of what they promise, and the naming
formats are pinned by the expected values of the unit tests and by
injectivity lemmas:

- the output folder's name, and the serial probing that finds a free folder path;
- the zero-padding mask for the running index, and the output file names;
- the three-stage resolution of the time a file was taken, after the file
  is opened (a path that cannot be opened ends the run): EXIF tag, then a
  `YYYYMMDD_HHMMSS` run in the path, then the modification time. This
  includes the leftmost/greedy regular-expression search and the proleptic
  Gregorian `timegm` arithmetic;
- the time-keyed index of input files, with linear probing on collisions;
- the copy plan: entries in ascending key order, 1-based positions, and a
  dry run that makes no copy;
- the video helpers: the HandBrake rotation code, the `.thm`/`.THM`
  metadata sidecar of MPEG videos, the case-sensitive video-extension test,
  and the `.mp4` target name.

Modules, one file each:

- `Wrappers`: `Option` and `Result`.
- `Sequences`: generic sequence facts.
- `Strings`: Python's `str(int)`, `'%0Nd'`, ASCII `lower()`, `str.rfind` and
  POSIX `os.path.splitext`.
- `Calendar`: `datetime` validity and `calendar.timegm`.
- `Naming`: `folder_name`, `folder_path`, `get_index_mask` and `get_output_file_name`.
- `TimeTaken`: `get_time_taken`.
- `TimeIndex`: `get_input_files`.
- `RenamePlan`: `copy_files`.
- `Video`: the helpers of `video.py` and their twins in `photo_sort.py`.

The loops of the source are loops here:

- `folder_path` is `Naming.FolderPath`.
- The nested loops of `get_input_files` are `TimeIndex.GetInputFiles`.
- Its inner `while` is `TimeIndex.FreeKey`.
- The loop of `copy_files` is `RenamePlan.CopyFiles`.

Each of these methods is proved equal to a specification function, and the
properties are proved about those functions.

The model follows the code of `photo_sort/photo_sort.py`, not the unit
tests, where the two disagree. The tests call `folder_name(year, event)`
(photo_sort/test/test_photo_sort.py:23) and `folder_path` without a
photographer (:39), but `photographer` has no default in this module, so
those calls raise `TypeError`. They call `get_output_file_name` with an
extra `sub_event` argument (:77-86), which this module does not take either.
The model keeps only the test expectations this code meets
(:28-32, :44-50, :52-66, :78, :82).

## Model

| member | source | states |
|---|---|---|
| Naming.FolderNameExamples | photo_sort/test/test_photo_sort.py:28-32 | `folder_name` gives "2014 - Boom - Marcus" and "2014 - Boom - 2 - Marcus", and "2014 - Boom" with no photographer; an empty photographer and serial 0 are falsy and add nothing |
| Naming.CandidateInjective | photo_sort/photo_sort.py:48-57 | two probes of `folder_path` with different serials never produce the same path, so the serial part of the name identifies the serial |
| Naming.FolderPath | photo_sort/photo_sort.py:59-70 | the probing loop terminates; it returns a path that is not an existing directory, that path is the first free candidate in serial order, and the unsuffixed name is returned when it is free |
| Naming.FirstFreeUnique | photo_sort/photo_sort.py:63-70 | the first free candidate is determined by the set of existing directories alone |
| Naming.FolderPathExamples | photo_sort/test/test_photo_sort.py:44-50 | with no directories the path is `root/2014 - Boom - Marcus`; once that exists it is `root/2014 - Boom - 2 - Marcus` |
| Naming.IndexMaskExamples | photo_sort/photo_sort.py:79-83 | `get_index_mask` returns "%d" below ten files and "%02d", "%03d", "%04d", "%05d" for 10, 100, 1000, 10000 files, as the mask test expects |
| Naming.FormatIndex | photo_sort/photo_sort.py:86-87 | applying the mask to a position gives a digit string that reads back as that position |
| Naming.IndexWidthUniform | photo_sort/photo_sort.py:79-83 | under the mask for n files, every position 1..n is written with exactly as many characters as n has digits |
| Naming.OutputFileNameWith | photo_sort/photo_sort.py:85-95 | an output name is the masked 1-based index, " - ", the event, a space, the year, " - photographer" when one is given, and the input's extension in lower case |
| Naming.ExampleSplit | photo_sort/photo_sort.py:92 | `os.path.splitext` of the test's `/tmp/photo_sort/IMG4101.jpg` gives its base and ".jpg" |
| Naming.OutputFileNameExample | photo_sort/test/test_photo_sort.py:68-78 | index 0 of a `.jpg` input with no photographer is named "1 - Boom 2014.jpg" |
| Naming.OutputFileNamePhotographerExample | photo_sort/test/test_photo_sort.py:80-82 | with photographer "Marcus" the same input is named "1 - Boom 2014 - Marcus.jpg" |
| Naming.OutputFileNameParts | photo_sort/photo_sort.py:85-95 | an output name starts with the masked index, whose digits read index + 1, and ends with the lower-cased extension |
| Naming.OutputNamesDistinct | photo_sort/photo_sort.py:99-103 | two different positions of one run never get the same output name, whatever the input files |
| Strings.NatToString | photo_sort/photo_sort.py:52 | `str(n)` is a non-empty digit string that reads back as n, with no leading zero unless n is 0 |
| Strings.IntToStringInjective | photo_sort/photo_sort.py:52 | different integers have different `str` texts |
| Strings.SplitExtShape | photo_sort/photo_sort.py:92 | a non-empty extension found by `splitext` is a dot followed by no dot or slash, and the base keeps a stem in its last component |
| Strings.SplitExtOfAppended | photo_sort/video.py:64-68 | appending an extension (a dot and then no dot or slash) to a base with a stem, as the sidecar and target names do, splits back into that base and that extension |
| Calendar.EpochIsZero | photo_sort/photo_sort.py:164-165 | 1970-01-01 00:00:00 is a valid date-time and `timegm` maps it to 0 |
| Calendar.TimeGmOrder | photo_sort/photo_sort.py:164-165 | for valid date-times, one is earlier than another exactly when its `timegm` value is smaller |
| Calendar.TimeGmInjective | photo_sort/photo_sort.py:164-165 | distinct valid date-times have distinct timestamps |
| Calendar.AfterEpochPositive | photo_sort/photo_sort.py:164-165 | every valid date-time after the epoch has a positive timestamp |
| TimeTaken.SearchFromSpec | photo_sort/photo_sort.py:161 | the search finds the leftmost start that admits a match, and for that start the rightmost group position; it finds nothing exactly when no start admits one |
| TimeTaken.StampSearchRightmost | photo_sort/photo_sort.py:161-163 | for a path without newlines the path stage picks the rightmost `\d{8}_\d{6}` run with at least one character before and one after it, and matches nothing exactly when there is no such run |
| TimeTaken.UnopenableFails | photo_sort/photo_sort.py:154 | a path that `open` rejects raises before the EXIF tag, the path or the mtime is consulted |
| TimeTaken.ExifDecides | photo_sort/photo_sort.py:157-159 | for a file that opens, a present EXIF `DateTimeOriginal` tag alone decides the result; the path and the mtime are not consulted |
| TimeTaken.PathDecides | photo_sort/photo_sort.py:161-165 | without the tag, a run in the path decides: its `timegm` value, or the error for an impossible date; the mtime is not consulted |
| TimeTaken.MtimeLast | photo_sort/photo_sort.py:167-168 | with neither the tag nor a run in the path, the modification time is returned |
| TimeTaken.FailsOnlyOnBadDates | photo_sort/photo_sort.py:154-165 | `get_time_taken` raises exactly when the file cannot be opened or the stage it settles on holds text that `strptime` rejects or a date that does not exist; an error never falls through to the next stage |
| TimeTaken.StampRoundTrip | photo_sort/photo_sort.py:164-165 | a valid date-time written as `YYYYMMDD_HHMMSS` is parsed back into its own `timegm` value |
| TimeTaken.PathStampExample | photo_sort/photo_sort.py:151-168 | without EXIF data, `IMG_20140512_183000.jpg` resolves to 1399919400 (2014-05-12 18:30:00 UTC), whatever its mtime |
| TimeIndex.Probe | photo_sort/photo_sort.py:180-181 | the bumped key is at or above the resolved time, is unused, and every key between the time and it is in use |
| TimeIndex.ProbeUnique | photo_sort/photo_sort.py:180-181 | those three facts determine the bumped key |
| TimeIndex.FreeKey | photo_sort/photo_sort.py:180-181 | the inner `while` ends with the probed key |
| TimeIndex.IndexKeys | photo_sort/photo_sort.py:172-183 | the keys of the index are exactly the keys handed to the files |
| TimeIndex.SlotsDistinct | photo_sort/photo_sort.py:180-183 | no two files are given the same key |
| TimeIndex.IndexValues | photo_sort/photo_sort.py:183 | every file is stored under its own key |
| TimeIndex.IndexSize | photo_sort/photo_sort.py:170-185 | the index has as many entries as files were listed |
| TimeIndex.SmallestFree | photo_sort/photo_sort.py:178-183 | each file's key is the smallest integer at or above its resolved time that no earlier file holds |
| TimeIndex.NothingOverwritten | photo_sort/photo_sort.py:180-183 | an entry made earlier is still present, under the same key and with the same file, after all later insertions |
| TimeIndex.LaterCollisionGoesHigher | photo_sort/photo_sort.py:180-183 | a later file whose time is not earlier than an earlier file's gets a strictly larger key |
| TimeIndex.DistinctTimesKeepTimes | photo_sort/photo_sort.py:178-183 | when no two files share a time, every file is stored under its own time |
| TimeIndex.ResolveAllSpec | photo_sort/photo_sort.py:174-178 | resolving all listed files succeeds exactly when each file resolves, pairing each with its time in listing order; otherwise the error is that of the first file that fails |
| TimeIndex.FailureStops | photo_sort/photo_sort.py:177-178 | once a file raises, nothing listed after it changes the outcome |
| TimeIndex.FlattenAppend | photo_sort/photo_sort.py:174-177 | the files of two runs of directories are those of the first run followed by those of the second |
| TimeIndex.InputFilesSize | photo_sort/photo_sort.py:170-185 | `get_input_files` returns a dictionary exactly when every listed file resolves, and then it has one entry per listed file |
| TimeIndex.UnopenableEndsRun | photo_sort/photo_sort.py:174-178 | the first listed path that cannot be opened ends the whole run with the `open` error |
| TimeIndex.UnopenableListingExample | photo_sort/photo_sort.py:175-178 | a directory such as `Canon/100CANON.OLD`, which the glob `*.*` matches, makes the run fail |
| TimeIndex.DistinctTimeStored | photo_sort/photo_sort.py:180-183 | when no two files share a time, each file is in the index under its own time |
| TimeIndex.GetInputFiles | photo_sort/photo_sort.py:170-185 | the nested loops return the index built by resolving every listed file in order and probing each into the dictionary, or the first error raised |
| RenamePlan.SortedKeys | photo_sort/photo_sort.py:101 | `sorted(input_files)` holds exactly the keys of the index, each once |
| RenamePlan.SortedKeysAscending | photo_sort/photo_sort.py:101 | the sorted keys are strictly ascending |
| RenamePlan.CopyFiles | photo_sort/photo_sort.py:97-111 | the loop produces the plan entry by entry, and its copy log is the plan itself, or empty under a dry run; the names produced are the same either way |
| RenamePlan.PlanFollowsKeys | photo_sort/photo_sort.py:98-102 | the plan has one entry per file of the index, and the i-th entry copies the file under the i-th smallest key |
| RenamePlan.SmallerKeyEarlier | photo_sort/photo_sort.py:101-102 | the file under a smaller key is copied by an earlier entry |
| RenamePlan.DistinctTimesInTimeOrder | photo_sort/photo_sort.py:101-102 | for an index built from files with pairwise distinct times, a file taken earlier is copied by an earlier entry |
| RenamePlan.PlanCoversIndex | photo_sort/photo_sort.py:101-102 | every file of the index is copied by some entry |
| RenamePlan.PlanDestination | photo_sort/photo_sort.py:103-104 | the i-th destination is the output folder, "/", and the output name for position i |
| RenamePlan.PlanPositions | photo_sort/photo_sort.py:99-104 | the i-th destination lies in the output folder, its name opens with the masked i + 1, and it ends with the source's lower-cased extension |
| RenamePlan.DestinationsDistinct | photo_sort/photo_sort.py:99-104 | no two entries of a plan share a destination, because their index prefixes differ |
| Video.RotationCode | photo_sort/video.py:16-28 | the rotation code is absent or one of 3, 4, 7 |
| Video.RotationRoundTrip | photo_sort/photo_sort.py:113-125 | a rotation has a code exactly when it is 90, 180 or 270, and the code maps back to that rotation (90 gives 4, 180 gives 3, 270 gives 7) |
| Video.RotationCodeInjective | photo_sort/video.py:16-28 | no two rotations share a code |
| Video.MetadataOfOtherFiles | photo_sort/video.py:62-73 | a file whose lower-cased extension is neither ".mpg" nor ".mpeg" is its own metadata file |
| Video.MetadataOfMpeg | photo_sort/video.py:64-73 | for an MPEG video, `base + '.thm'` wins when it exists, `base + '.THM'` is used only when it is missing, and with neither the video itself is returned |
| Video.MetadataFileShape | photo_sort/video.py:64-73 | the metadata file is the video itself, or an existing sidecar that splits back into the video's unchanged base and ".thm" or ".THM" |
| Video.MetadataExample | photo_sort/video.py:66-71 | an upper-case `MVI_1.MPG` takes its data from an existing `MVI_1.THM` |
| Video.ExtensionListsDiffer | photo_sort/video.py:12 | the list in `video.py` extends the one at photo_sort/photo_sort.py:44 by ".wmv" alone |
| Video.VideoExtensionsLowerCase | photo_sort/video.py:39 | every recognised extension is already lower case, so one holding a capital letter is never taken as video |
| Video.VideoExtensionExamples | photo_sort/video.py:39 | ".mov" and ".wmv" are video and ".MOV" and ".jpg" are not |
| Video.TranscodeTargetShape | photo_sort/video.py:37-40 | a transcode target exists exactly for the listed extensions; it splits into the input's base and ".mp4", and it is the input path itself exactly when the input already ends in ".mp4" |

## Left out

- External tools are not modelled. This covers HandBrakeCLI, exiftool and the subprocess calls, and the file moves and removals around them in `encode_videos` (photo_sort/photo_sort.py:127-149, photo_sort/video.py:31-59). Only the extension test and the target name of `encode_videos` are modelled.
- The EXIF reader is an input. `Tag(None)` stands for tag text that `strptime` rejects. `Tag(Some(t))` gives the fields read, and the model applies the `datetime` range checks to them.
- TimeTaken.MtimeLast: `os.path.getmtime` returns a float; it is modelled as an integer, so sub-second modification times are not represented.
- TimeTaken.GetTimeTaken: a failing `open` is modelled, but an `OSError` from `os.path.getmtime` on a file that did open (one removed in between) is not; such a file is taken to have a modification time.
- The glob of each input directory is an input, one sequence of paths per directory. `os.path.isdir` and `os.path.isfile` are sets of existing paths.
- Naming.FolderPath takes the output root as already absolute; `os.path.abspath` is not modelled.
- `mkdir`, `shutil.copy2` and `print` are not modelled. A copy is an entry appended to a log. The "Copied %d files." line and the printed names are left out; the plan carries the names in print order.
- RenamePlan.CopyFiles takes the dry-run flag as a parameter. In the source, `main` (photo_sort/photo_sort.py:204-205) assigns `dry_run` to a local name, so the module flag at :46 never changes and `--dry-run` has no effect. The command-line wiring of `process` and `main` is not modelled.
- Strings.Lower lowers ASCII capitals only, as Python 2 byte strings do. Non-ASCII case mapping is not modelled.
- TimeTaken.StampSearchRightmost is stated for paths without a newline, where `.` matches every character. The search itself models `.` not matching a newline for every path.
- Video.RotationCode takes the exiftool `Rotation` tag as an optional integer. Tag values that are not numbers are not modelled; they fall into the "no code" case as in the source.
- The `sub_event` test case (photo_sort/test/test_photo_sort.py:84-86) has no counterpart in `get_output_file_name`, so it is not modelled.
- The GUI, the interactive CLI, the launcher stub, and the exception and enum declarations hold no logic of this engine and are not modelled.
