# split_audio, modelled in Dafny

This project models `split_audio` from `Voice.py`. The function takes a
`.wav` recording and cuts it into frames of `frame_duration` milliseconds
(5000 by default). It writes one metadata row per frame and merges those
rows into `frames_metadata.csv`, keeping one row per frame name.

The model has five modules, one per concern of that function:

- `Decimal` (decimal.dfy): `str(n)` for a frame counter (`Str`), its
  inverse (`Value`), and the proof that the rendering is injective.
- `Framing` (framing.dfy): the slices visited by
  `for start in range(0, total_duration, frame_duration)` with
  `end = min(start + frame_duration, total_duration)`. The audio is only
  its length in integer milliseconds.
- `Metadata` (metadata.dfy): the row datatype, the frame name
  `"{base}_frame_{i}.wav"`, and the rows of one call.
- `Table` (table.dfy): `drop_duplicates(subset='frame_name', keep='first')`
  as a front-to-back scan (`KeepFirstFrom`), and the merge
  `concat([existing, new])` followed by that scan (`Merge`).
- `Voice` (voice.dfy): the `.wav` check on the lower-cased path, the
  function `SplitAudioResult` that gives the whole effect of one call, and
  the method `SplitAudio`. The method builds the rows in a loop, as the
  source does, and is proved equal to `SplitAudioResult`.

The file system and the decoder are parameters of `SplitAudio`:

- `inputExists` is the result of `os.path.exists(input_file)`.
- `audio` is `None` when `AudioSegment.from_wav` fails. Otherwise it is
  `Some(len(audio))`.
- `table` is `None` when `frames_metadata.csv` does not exist. Otherwise
  it holds the rows read from the file.
- `baseName` is the base name that `Voice.py:46` derives from the path.
- `frameDuration` defaults to 5000 milliseconds, as `frame_duration` does
  at `Voice.py:8`.

The result is either the reason the call stopped early, or the rows of the
call together with the table written back.

The comment at `Voice.py:75` says the rows are appended. The code
(`Voice.py:82`) does more than append. It drops new rows whose name is
already in the table. It also drops later rows of the existing table that
repeat an earlier name. The model follows the code.

One consequence of first-wins merging follows from `MergeKeepsNewRow`.
Suppose the same recording is split again with a different
`frame_duration`. Every frame name that already exists keeps its old row,
with the old bounds. If the second call also passes the same
`frames_output_dir`, the new frame file is written to the same path
(`Voice.py:53`, `Voice.py:56`), so the row no longer describes the file.

## Model

| member | source | states |
|---|---|---|
| `Decimal.Str` | Voice.py:52 | the frame counter is rendered as at least one decimal digit, with a leading `0` only for the number zero |
| `Decimal.ValueOfStr` | Voice.py:52 | reading the rendered counter back as a decimal number gives the counter (round trip) |
| `Decimal.StrInjective` | Voice.py:52 | two different counters never render to the same digits |
| `Framing.FramesFromAt` | Voice.py:49-50 | the k-th slice of `range(start, total, d)` starts at `start + k*d`, which is below `total`, and ends at `min(start + k*d + d, total)` |
| `Framing.FramesFromReaches` | Voice.py:49 | every step `start + k*d` below `total` is visited by the loop |
| `Framing.FrameStarts` | Voice.py:49-50 | index k is a frame exactly when `k*d < total`; frame k is `(k*d, min(k*d + d, total))`, so starts are the multiples of `d` below `total` in increasing order |
| `Framing.FrameCount` | Voice.py:49 | the number of frames n is the ceiling of `total / d`: `total <= n*d`, `(n-1)*d < total` when n > 0, and `n == (total + d - 1) / d` (zero for empty audio) |
| `Framing.FramesTile` | Voice.py:49-51 | the frames tile `[0, total)`: none for empty audio, the first starts at 0, each ends where the next starts, the last ends at `total`; every frame is non-empty and at most `d` long, and only the last can be shorter |
| `Framing.CoveredOnce` | Voice.py:49-51 | each millisecond `t < total` lies in frame `t / d` and in no other frame |
| `Metadata.FrameNameInjective` | Voice.py:52 | equal frame names with the same base name mean equal frame counters |
| `Metadata.RowsOfSnoc` | Voice.py:59-70 | appending a frame appends its row, numbered by the count of frames before it |
| `Metadata.RowsOfDistinct` | Voice.py:52 | the rows of one call have pairwise distinct frame names |
| `Metadata.NewRowsShape` | Voice.py:36-70 | one call yields ceil(total / d) rows; row i has `fsID == i`, name `base_frame_i.wav`, bounds `i*d` and `min(i*d + d, total)`, salience 1, fold 3, classId 2, label "Sushan"; names are distinct |
| `Table.KeepFirstFrom` | Voice.py:82 | the deduplicated table has pairwise distinct frame names; its names are exactly the input names not already seen; it is no longer than the input |
| `Table.KeepFirstAppend` | Voice.py:82 | deduplicating `a ++ b` gives the deduplicated `a`, then `b` deduplicated against every name in `a` (relative order kept) |
| `Table.KeepFirstMember` | Voice.py:82 | a row is kept exactly when it is the first row with its frame name and the name was not already seen |
| `Table.KeepFirstOfDistinct` | Voice.py:82 | a table whose names are distinct and unseen comes through deduplication unchanged |
| `Table.MergeShape` | Voice.py:81-82 | the merged table is the deduplicated existing table followed by the new rows whose names are not in it; its names are distinct and are the union of both tables' names |
| `Table.MergeKeepsExisting` | Voice.py:76-85 | an existing table with distinct names survives unchanged as the prefix of the merged table |
| `Table.MergeKeepsNewRow` | Voice.py:80-82 | a new row of one call is kept, after the existing rows, exactly when no existing row carries its frame name |
| `Table.MergeFirstWins` | Voice.py:82 | a row is in the merged table exactly when it is the first row of `existing ++ new` with its frame name |
| `Table.MergeIdempotent` | Voice.py:76-85 | merging the same new rows a second time leaves the merged table unchanged |
| `Table.MergeIntoEmpty` | Voice.py:86-89 | rows with distinct names merged into an empty table come out unchanged, so writing the new rows without deduplication gives the same table as a merge would |
| `Voice.Lower` | Voice.py:24 | lower-casing keeps the length and maps each character through ASCII lower-casing |
| `Voice.IsWavPathIff` | Voice.py:24-26 | a path passes the check exactly when it ends in a dot followed by `w`, `a`, `v` in either case |
| `Voice.SplitAudio` | Voice.py:8-89 | with `frameDuration` defaulting to 5000 ms, the loop's rows and the written table are exactly `SplitAudioResult`: the early returns in source order (missing input, not `.wav`, decode failure), `ValueError` for a zero step, no rows for a negative step, and otherwise the rows of every frame followed by the merge, or the rows alone when no table exists |
| `Voice.SplitAudioGuarantees` | Voice.py:35-89 | a completed call yields ceil(total / d) rows (none for a negative step) with distinct names; the written table has distinct names and holds exactly the old names plus the new ones; with no earlier table it is the new rows; an earlier table with distinct names is its prefix |
| `Voice.RerunKeepsTable` | Voice.py:76-85 | running the call again on the same recording, with the table the first run wrote, writes the same rows and the same table |

## Left out

- Voice_recognition.py is not part of this model. It does feature extraction with librosa, label encoding, the train/test split, and Keras training and prediction. All of it is calls into floating-point libraries.
- Audio decoding, slicing and export with pydub (`Voice.py:30`, `Voice.py:51`, `Voice.py:56`) are left out. The audio is only its length in milliseconds. Each exported frame file corresponds to one row of `newRows`.
- The file system is left out: `os.path.exists`, `os.makedirs`, `os.path.join`, `read_csv` and `to_csv` (`Voice.py:19`, `Voice.py:39-40`, `Voice.py:53`, `Voice.py:73-89`). They are parameters (`inputExists`, `table`) or the result (`Outcome.table`). CSV encoding is not modelled either: column types, reading back a file written with no rows, and exceptions raised by pandas.
- Times stay in integer milliseconds. The conversion `start / 1000.0` to floating-point seconds (`Voice.py:62-63`) is not modelled.
- The base name is an opaque parameter. The semantics of `os.path.basename` and `os.path.splitext` (`Voice.py:46`) are not modelled.
- Voice.Lower: folds ASCII letters only, while Python's `str.lower()` lower-cases every Unicode letter. The `.wav` decision is unaffected: no non-ASCII character lower-cases to `.`, `w`, `a` or `v` under Python's full case mapping (`İ` becomes `i̇`, the Kelvin sign becomes `k`), so `IsWavPath` gives Python's answer for every path.
- The error messages printed before each early return, and the final message (`Voice.py:20`, `Voice.py:25`, `Voice.py:32`, `Voice.py:91`), are left out. Each early return becomes a `Failure` value.
- Voice.SplitAudio: a zero `frame_duration` makes `range` raise `ValueError` in the source, and that exception propagates to the caller. The model returns `Failed(ZeroStep)` instead. The directories created before the raise are not modelled.
- Non-integer `frame_duration` values are not modelled. For them `range` raises `TypeError`.
- The example call at module level with hard-coded paths (`Voice.py:94-98`) is left out.
- The comment at `Voice.py:58` says the label is "Yogesh". The code writes "Sushan", and so does the model.
