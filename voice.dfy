/** split_audio: validate the input path, cut the recording into frames of
    frameDuration milliseconds, build one metadata row per frame and merge
    the rows into frames_metadata.csv. The file system and the audio
    decoder are parameters: whether the input exists, the decoded length
    (None when decoding fails) and the table already on disk (None when
    there is none). */
module Voice {
  import opened Framing
  import opened Metadata
  import opened Table

  datatype Option<T> = None | Some(value: T)

  /** The ways split_audio stops without writing the table. */
  datatype Failure =
    | MissingInput  // the input path does not exist
    | NotWav        // the lower-cased path does not end in ".wav"
    | LoadError     // the audio decoder rejected the file
    | ZeroStep      // range(0, total, 0) raises ValueError

  /** What split_audio leaves behind: the rows of this call (one exported
      frame file each) and the table written to frames_metadata.csv. */
  datatype Outcome =
    | Failed(reason: Failure)
    | Saved(newRows: seq<Row>, table: seq<Row>)

  /** Python's str.lower() on ASCII letters. */
  function LowerChar(c: char): char {
    if 'A' <= c <= 'Z' then (c as int + 32) as char else c
  }

  function Lower(s: string): (r: string)
    ensures |r| == |s|
    ensures forall i :: 0 <= i < |s| ==> r[i] == LowerChar(s[i])
  {
    if s == [] then [] else [LowerChar(s[0])] + Lower(s[1..])
  }

  predicate EndsWith(s: string, suffix: string) {
    |suffix| <= |s| && s[|s| - |suffix|..] == suffix
  }

  /** input_file.lower().endswith('.wav') */
  predicate IsWavPath(path: string) {
    EndsWith(Lower(path), ".wav")
  }

  /** A path passes the check exactly when its last four characters are a
      dot followed by w, a and v in either case. */
  lemma IsWavPathIff(path: string)
    ensures IsWavPath(path) <==>
              |path| >= 4 && path[|path| - 4] == '.' &&
              path[|path| - 3] in "wW" && path[|path| - 2] in "aA" && path[|path| - 1] in "vV"
  {
  }

  /** The rows of one call: none when range(0, total, step) is empty. */
  function NewRows(base: string, total: nat, step: int): seq<Row> {
    if step > 0 then RowsOf(base, Frames(total, step)) else []
  }

  /** The table written: the new rows alone when no table exists, else the
      first-wins merge. */
  function WriteTable(table: Option<seq<Row>>, rows: seq<Row>): seq<Row> {
    match table
    case None => rows
    case Some(existing) => Merge(existing, rows)
  }

  /** The whole effect of one split_audio call. */
  function SplitAudioResult(inputFile: string, inputExists: bool, audio: Option<nat>,
                            base: string, step: int, table: Option<seq<Row>>): Outcome
  {
    if !inputExists then Failed(MissingInput)
    else if !IsWavPath(inputFile) then Failed(NotWav)
    else if audio.None? then Failed(LoadError)
    else if step == 0 then Failed(ZeroStep)
    else
      var rows := NewRows(base, audio.value, step);
      Saved(rows, WriteTable(table, rows))
  }

  /** split_audio as a loop over range(0, total, frameDuration) that appends
      one row per frame, followed by the table merge. */
  method SplitAudio(inputFile: string, inputExists: bool, audio: Option<nat>,
                    baseName: string, table: Option<seq<Row>>, frameDuration: int := 5000)
    returns (r: Outcome)
    ensures r == SplitAudioResult(inputFile, inputExists, audio, baseName, frameDuration, table)
  {
    if !inputExists {
      return Failed(MissingInput);
    }
    if !IsWavPath(inputFile) {
      return Failed(NotWav);
    }
    if audio.None? {
      return Failed(LoadError);
    }
    var totalDuration := audio.value;
    var frameCount: nat := 0;
    var newCsvData: seq<Row> := [];
    if frameDuration == 0 {
      return Failed(ZeroStep);
    }
    if frameDuration > 0 {
      var d: nat := frameDuration;
      var start: nat := 0;
      ghost var visited: seq<Frame> := [];
      while start < totalDuration
        invariant frameCount == |visited|
        invariant visited + FramesFrom(start, totalDuration, d) == Frames(totalDuration, d)
        invariant newCsvData == RowsOf(baseName, visited)
        decreases totalDuration - start
      {
        var end := Min(start + d, totalDuration);
        var frameName := FrameName(baseName, frameCount);
        newCsvData := newCsvData + [Row(frameName, frameCount, start, end,
                                        DefaultSalience, DefaultFold, DefaultClassId, DefaultLabel)];
        assert FramesFrom(start, totalDuration, d) == [Frame(start, end)] + FramesFrom(start + d, totalDuration, d);
        RowsOfSnoc(baseName, visited, Frame(start, end));
        visited := visited + [Frame(start, end)];
        frameCount := frameCount + 1;
        start := start + d;
      }
      assert visited == Frames(totalDuration, d) by {
        assert FramesFrom(start, totalDuration, d) == [];
        assert visited + [] == visited;
      }
    }
    assert newCsvData == NewRows(baseName, totalDuration, frameDuration);
    if table.Some? {
      r := Saved(newCsvData, Merge(table.value, newCsvData));
    } else {
      r := Saved(newCsvData, newCsvData);
    }
  }

  /** What a completed call promises: ceil(total / step) rows with distinct
      names, a table with distinct names that keeps an earlier table written
      by split_audio as its prefix, and the new rows alone when there was no
      table. */
  lemma SplitAudioGuarantees(inputFile: string, audio: nat, base: string, step: int,
                             table: Option<seq<Row>>)
    requires IsWavPath(inputFile) && step != 0
    ensures var r := SplitAudioResult(inputFile, true, Some(audio), base, step, table);
            r.Saved? &&
            |r.newRows| == (if step > 0 then (audio + step - 1) / step else 0) &&
            DistinctNames(r.newRows) &&
            DistinctNames(r.table) &&
            Names(r.table) == (if table.Some? then Names(table.value) else {}) + Names(r.newRows) &&
            (table.None? ==> r.table == r.newRows) &&
            (table.Some? && DistinctNames(table.value) ==>
               |table.value| <= |r.table| && r.table[..|table.value|] == table.value)
  {
    var rows := NewRows(base, audio, step);
    if step > 0 {
      NewRowsShape(base, audio, step);
    }
    match table {
      case None =>
      case Some(existing) =>
        MergeShape(existing, rows);
        if DistinctNames(existing) {
          MergeKeepsExisting(existing, rows);
        }
    }
  }

  /** Running split_audio again on the same recording, with the table the
      first run wrote, writes the same table again. */
  lemma RerunKeepsTable(inputFile: string, audio: nat, base: string, step: int,
                        table: Option<seq<Row>>)
    requires IsWavPath(inputFile) && step != 0
    ensures var r := SplitAudioResult(inputFile, true, Some(audio), base, step, table);
            SplitAudioResult(inputFile, true, Some(audio), base, step, Some(r.table)) == r
  {
    var rows := NewRows(base, audio, step);
    match table {
      case None =>
        if step > 0 {
          RowsOfDistinct(base, Frames(audio, step));
        }
        MergeIntoEmpty(rows);
        MergeIdempotent([], rows);
      case Some(existing) =>
        MergeIdempotent(existing, rows);
    }
  }
}
