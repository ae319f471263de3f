# Frame extraction and selection, modelled in Dafny

This project models the data-preparation scripts of a Clash Royale gameplay
analyser:

- `extract_frames` reads a gameplay video frame by frame. It saves every
  `frame_interval`-th frame as `frame_{n:06d}.jpg`, numbered contiguously
  from 0, and stops at the end of the video or when an optional `max_frames`
  cap is reached. Before the loop it can take one of five exits: the video
  is missing, the video cannot be opened, the video reports 0 fps, the
  requested `fps` is 0, or the computed interval is 0. The last two are
  `ZeroDivisionError`s raised after the output directory was created. The
  model covers all but the zero `fps` request (see "Left out"); the zero
  interval is the error from `total_frames // frame_interval`.
- `preview_frames` lists a directory's `.jpg` files and sorts them as Python
  sorts strings. It shows the first `num_preview` of them, skips files that
  do not decode, and stops at the first `q` key.
- `select_frames.py` creates a selection directory. It copies into it the
  frame files named by a hard-coded list of frame numbers, skipping numbers
  that have no file, and reports the length of the list.

The file system is a class `Files.FileSystem` with one map field: directory
to listing, and each listing maps file name to content. `mkdir -p`,
`cv2.imwrite` and `shutil.copy` are methods that update that field. The loops
are `while` and `for` loops, each proved against a recursive function that
describes the whole loop: `Extract.Saved`, `Extract.Numbered`,
`Preview.Walk` and `Select.CopyAll`. The lemmas about those functions carry
the properties.

Files:

- `wrappers.dfy`: the `Option` type.
- `order.dfy`: Python's string order and `sorted` on a set of names.
- `naming.dfy`: `frame_{i:06d}.jpg`, its parse, and its order.
- `files.dfy`: directories and the file-system class.
- `extract.dfy`: `extract_frames`.
- `preview.dfy`: `preview_frames`.
- `select.dfy`: `select_frames.py`.

Inputs that the scripts get from outside are parameters:

- The video is a `Video` value: missing, unopenable, or opened with a flag
  saying whether its fps reads as 0 and with its decoded frames as opaque
  values.
- The frame interval `int(video_fps / fps)` is an integer input.
- `cv2.imread` success is a predicate `decodable` on file contents.
- The keys pressed are a function `key`: `key(j)` is what the `j`-th call
  to `cv2.waitKey` returns.

## Model

| member | source | states |
|---|---|---|
| Extract.ExtractFrames | scripts/extract_frames.py:17-86 | A missing video changes nothing. An unopenable video, a 0-fps video and a zero interval each leave only the created output directory. Otherwise the directory gains exactly the numbered saved frames, and the saved count and frames read are returned. |
| Extract.SaveFrames | scripts/extract_frames.py:60-86 | The loop saves exactly `Saved(frames, interval, cap)`, the `j`-th saved frame under `FrameName(j)`. It reads `FramesRead` frames and changes no other directory. |
| Extract.SampledLength | scripts/extract_frames.py:65-86 | Without a cap, `ceil(N / abs(interval))` frames are saved. |
| Extract.SampledAt | scripts/extract_frames.py:71 | The `j`-th saved frame is source frame `j * abs(interval)`, and that frame exists. |
| Extract.SampledPrefix | scripts/extract_frames.py:65-86 | What is saved from the first `n` frames is a prefix of what is saved from the whole video. |
| Extract.SavedCount | scripts/extract_frames.py:57-84 | The saved count is `min(ceil(N / abs(interval)), cap)`. A falsy `max_frames` (None or 0) is no cap, and a negative one stops after the first save. |
| Extract.SavedAt | scripts/extract_frames.py:71-84 | With the cap, saved frames are still source frames `0, k, 2k, ...` in order. |
| Extract.SourceFrameSaved | scripts/extract_frames.py:71-75 | Conversely, source frame `i` with `i % interval == 0` is saved as output number `i / abs(interval)`, unless the cap stopped the loop first. |
| Extract.FramesReadBounds | scripts/extract_frames.py:65-84 | The loop never reads past the end. It reads the whole video when the cap is not reached, and stops early when the cap is below the natural count. |
| Extract.EndOfVideo | scripts/extract_frames.py:66-68 | Leaving at end of stream means nothing was cut off and every frame was read. |
| Extract.CapExit | scripts/extract_frames.py:82-84 | Leaving on the cap right after source frame `c` means the capped output was saved and `c + 1` frames were read. |
| Extract.NumberedContents | scripts/extract_frames.py:72-75 | The files written are exactly `frame_000000.jpg` to `FrameName(K - 1)`, the `j`-th holding the `j`-th saved frame. |
| Extract.NumberedSize | scripts/extract_frames.py:72-75 | No two saves share a file name: `K` saves give `K` files. |
| Extract.NumberedSnoc | scripts/extract_frames.py:72-75 | Writing the next frame under the next name extends the numbered files by one. |
| Extract.CeilDivStep | scripts/extract_frames.py:71 | Reading one more frame adds one save exactly when its index is a multiple of the interval. |
| Extract.ModZeroSign | scripts/extract_frames.py:71 | `frame_count % frame_interval == 0` does not depend on the interval's sign. |
| Extract.PrintedEstimateUndercounts | scripts/extract_frames.py:51 | For a positive interval, the printed estimate `total_frames // frame_interval` is one less than the frames saved exactly when the interval does not divide the frame count. |
| Extract.PrintedEstimateExample | scripts/extract_frames.py:51 | With 10 frames and interval 3 the estimate is 3, but 4 frames are saved. |
| Extract.CorrectedEstimateExact | scripts/extract_frames.py:51 | `ceil(total / abs(interval))` is exactly the number of files an uncapped run writes. |
| Naming.FrameNameRoundTrip | scripts/extract_frames.py:72 | Parsing `frame_{i:06d}.jpg` gives back `i`, for every `i`. |
| Naming.ZeroPadRoundTrip | scripts/extract_frames.py:72 | Zero padding keeps the number's value. |
| Naming.FrameNameInjective | scripts/select_frames.py:17-18 | Distinct frame numbers give distinct file names. |
| Naming.FrameNameIsJpg | scripts/extract_frames.py:72 | Every frame name ends in `.jpg`, so the preview sees it. |
| Naming.FrameNameOrder | scripts/extract_frames.py:103 | Below a million, frame names sort as strings in frame-number order. |
| Naming.SevenDigitNamesSortEarly | scripts/extract_frames.py:103 | From a million on the order breaks: `frame_1000000.jpg` sorts before `frame_100001.jpg`. |
| Naming.FrameNamesSorted | scripts/extract_frames.py:103 | Below a million, the frame names in number order are strictly sorted and are exactly `NameRange(count)`. |
| Naming.DecimalLength | scripts/extract_frames.py:72 | A number below `10^w` has at most `w` digits, so `:06d` adds padding without truncating. |
| Order.BelowIrreflexive | scripts/extract_frames.py:103 | No string sorts before itself. |
| Order.BelowTransitive | scripts/extract_frames.py:103 | String order is transitive. |
| Order.BelowTotal | scripts/extract_frames.py:103 | Distinct strings are comparable. |
| Order.BelowAsymmetric | scripts/extract_frames.py:103 | The two strings of a comparison cannot each sort before the other. |
| Order.BelowAfterCommonPrefix | scripts/extract_frames.py:103 | A shared prefix does not change the order. |
| Order.SortSet | scripts/extract_frames.py:103 | `sorted` of a set of names is strictly increasing, has exactly the set's elements, and has the set's size. |
| Order.SortedUnique | scripts/extract_frames.py:103 | Two strictly sorted sequences with the same elements are equal. |
| Order.SortSetUnique | scripts/extract_frames.py:103 | Any strictly sorted arrangement of a set is its `sorted`. |
| Preview.PreviewFrames | scripts/extract_frames.py:103-132 | A missing directory fails. A directory with no `.jpg` reports no frames. Otherwise the loop over the first `min(num_preview, len)` sorted names gives exactly `Walk`. |
| Preview.FrameFilesAreCandidates | scripts/extract_frames.py:103 | The `.jpg` filter keeps every frame file: `FrameName(i)` is a candidate exactly when the directory holds it. |
| Preview.PreviewCount | scripts/extract_frames.py:112 | `min(num_preview, len(frames))`: at most `num_preview` names and never more than the listing. A negative request visits nothing. |
| Preview.WalkVisitsOnlyNames | scripts/extract_frames.py:112-118 | Every displayed name was visited and readable, every reported name was visited and unreadable, and no more names are handled than were visited. (That no name is handled twice follows from Preview.WalkKeepsOrder on the sorted names.) |
| Preview.WalkKeepsOrder | scripts/extract_frames.py:112-126 | Sorted names are displayed and reported in sorted order. |
| Preview.WalkStopsOnQuit | scripts/extract_frames.py:127-132 | No display before the last got `q`. The preview is cancelled exactly when the last display got `q`. |
| Preview.WalkCancelledPrefix | scripts/extract_frames.py:112-132 | A `q` ends the whole loop. The names handled are exactly the prefix of the visited names that ends with the one answered by `q`, which is the last displayed. Each of them is displayed or reported according to its readability, and nothing after it is visited. |
| Preview.WalkCompletes | scripts/extract_frames.py:112-118 | Without `q`, every visited name is displayed if readable and reported if not. An unreadable file never ends the preview. |
| Preview.PreviewOrderAfterExtraction | scripts/extract_frames.py:103 | After a fresh extraction of at most a million frames, the preview walks the files in extraction order. |
| Files.CreatedExisting | scripts/select_frames.py:13 | `exist_ok=True`: making a directory that exists changes nothing. |
| Files.CreatedAbsent | scripts/extract_frames.py:22 | Making an absent directory adds it empty and adds nothing else. |
| Files.CreatedIdempotent | scripts/select_frames.py:13 | Making the same directory twice is the same as making it once. |
| Files.FileSystem.MakeDirs | scripts/extract_frames.py:22 | The directories become `Created(old, dir)`. |
| Files.FileSystem.WriteFile | scripts/extract_frames.py:74 | Exactly one entry of one directory is created or replaced. |
| Select.SelectFrames | scripts/select_frames.py:13-22 | Only the destination changes, and it becomes `CopyAll` of the source over its old listing. The reported count is `len(frames_to_annotate)`. |
| Select.CopyAllIsOverwrite | scripts/select_frames.py:16-20 | Whatever the order and repetitions of the list, the loop's result is the old destination overwritten by the requested source files that exist. |
| Select.OverwriteStep | scripts/select_frames.py:16-20 | One more iteration adds one more requested name to that overwrite. |
| Select.CopiedFilesMatchSource | scripts/select_frames.py:19-20 | A listed number whose source exists is in the destination with the source's content. |
| Select.MissingSourceSkipped | scripts/select_frames.py:19 | A listed number with no source file creates nothing and leaves an existing entry alone. |
| Select.OtherEntriesUnchanged | scripts/select_frames.py:16-20 | Unrequested names in the destination are untouched, and nothing else is added. |
| Select.CopyAllIdempotent | scripts/select_frames.py:16-20 | Running the copy again changes nothing. |
| Select.CopyAllDependsOnlyOnSet | scripts/select_frames.py:16-20 | Only the set of listed numbers matters, not their order or repetitions. |
| Select.RequestedAtMostListed | scripts/select_frames.py:16-18 | The list names at most as many files as it has entries. |
| Select.CopiedAtMostListed | scripts/select_frames.py:16-20 | At most `len(frames_to_annotate)` files are copied. |
| Select.ReportedCountOvercounts | scripts/select_frames.py:22 | With an empty source the script reports 18 but copies nothing: the message counts requests, not copies. |
| Select.ShippedListIncreasing | scripts/select_frames.py:6-10 | The shipped list is strictly increasing, so it has no repetitions. |

## Left out

- Video decoding and JPEG encoding (OpenCV) are not modelled. Frames are opaque values. `cv2.imwrite` is taken to succeed; its boolean result is ignored by the script.
- Extract.ExtractFrames: a requested `fps` of 0 is not modelled. `video_fps / fps` then raises `ZeroDivisionError` at line 50, after the output directory was created, and the model takes the resulting interval as its input.
- The frame rate is floating point and is not modelled. The stride `int(video_fps / fps)` is an integer input, and whether `video_fps` reads as 0 is a flag.
- `duration` and the closing line "Average extraction rate" are not modelled. That line divides by `duration`, which is 0 when the video reports 0 frames, so the script ends with a `ZeroDivisionError` after the extraction has finished.
- The frame count is not modelled as container metadata. The loop runs to the end of the stream, and the printed estimate uses `|frames|` as `total_frames`.
- Resolution metadata, progress messages and all other printing are not modelled.
- `cv2.resize`, `cv2.imshow` and `cv2.destroyAllWindows` are not modelled. The preview records which names would be displayed.
- Releasing the capture (`video.release()`) is not modelled.
- Argument parsing and `main` are not modelled. `max_frames` is an `Option<int>`, and the preview count is an integer.
- Paths are opaque strings. The parent directories created by `parents=True` are not modelled.
- `os.path.join` of the output directory and the file name is not modelled. A file lives in its directory's listing.
- Select.SelectFrames: requires distinct source and destination directories. When they coincide, `shutil.copy` raises `SameFileError`, which is not modelled.
- Select.SelectFrames: frame numbers are natural numbers. A negative number would format as `frame_-00001.jpg`, which is not modelled.
- File metadata copied by `shutil.copy` (permission bits) is not modelled.
- Extract.SaveFrames: the loop of `extract_frames` is a method of its own, called by Extract.ExtractFrames once the checks pass. The loop body is the same.

## Findings

| source | as written | input that shows it | evidently intended | confidence | as-written member | corrected member |
|---|---|---|---|---|---|---|
| scripts/extract_frames.py:51 | `estimated_frames = total_frames // frame_interval` (floor) | 10 frames, interval 3: the script prints 3, but frames 0, 3, 6 and 9 are saved | the number saved without a cap, `ceil(total_frames / frame_interval)` | not executed | Extract.PrintedEstimateUndercounts | Extract.CorrectedEstimateExact |
