/** The metadata rows split_audio writes, one per frame: the frame's file
    name, its sequential id, its bounds and four constant columns. */
module Metadata {
  import opened Decimal
  import opened Framing

  /** One row of frames_metadata.csv. Times stay in integer milliseconds. */
  datatype Row = Row(
    frameName: string,
    fsID: nat,
    start: nat,
    end: nat,
    salience: int,
    fold: int,
    classId: int,
    speakerLabel: string)

  const DefaultSalience: int := 1
  const DefaultFold: int := 3
  const DefaultClassId: int := 2
  const DefaultLabel: string := "Sushan"

  /** The file name of frame i of the recording with base name base. */
  function FrameName(base: string, i: nat): string {
    base + "_frame_" + Str(i) + ".wav"
  }

  /** The row appended for frame number i, the slice f. */
  function NewRow(base: string, i: nat, f: Frame): Row {
    Row(FrameName(base, i), i, f.start, f.end, DefaultSalience, DefaultFold, DefaultClassId, DefaultLabel)
  }

  /** The rows of one call, numbered from 0 in frame order. */
  function RowsOf(base: string, frames: seq<Frame>): seq<Row> {
    seq(|frames|, i requires 0 <= i < |frames| => NewRow(base, i, frames[i]))
  }

  /** Appending a frame appends its row, numbered after the others. */
  lemma RowsOfSnoc(base: string, frames: seq<Frame>, f: Frame)
    ensures RowsOf(base, frames + [f]) == RowsOf(base, frames) + [NewRow(base, |frames|, f)]
  {
  }

  predicate DistinctNames(rows: seq<Row>) {
    forall i, j :: 0 <= i < j < |rows| ==> rows[i].frameName != rows[j].frameName
  }

  /** Frame names of one recording determine the frame number. */
  lemma FrameNameInjective(base: string, i: nat, j: nat)
    ensures FrameName(base, i) == FrameName(base, j) ==> i == j
  {
    var a, b := FrameName(base, i), FrameName(base, j);
    if a == b {
      var p := |base| + 7;
      assert a[p..|a| - 4] == Str(i);
      assert b[p..|b| - 4] == Str(j);
      StrInjective(i, j);
    }
  }

  /** The rows of one call have pairwise distinct frame names. */
  lemma RowsOfDistinct(base: string, frames: seq<Frame>)
    ensures DistinctNames(RowsOf(base, frames))
  {
    var rows := RowsOf(base, frames);
    forall i, j | 0 <= i < j < |rows| ensures rows[i].frameName != rows[j].frameName {
      FrameNameInjective(base, i, j);
    }
  }

  /** The rows for audio of length total: ceil(total / d) of them, row i
      with fsID i, name FrameName(base, i), bounds i * d and
      min(i * d + d, total), and the constant columns. */
  lemma NewRowsShape(base: string, total: nat, d: nat)
    requires d > 0
    ensures |RowsOf(base, Frames(total, d))| == (total + d - 1) / d
    ensures DistinctNames(RowsOf(base, Frames(total, d)))
    ensures forall i :: 0 <= i < |RowsOf(base, Frames(total, d))| ==>
              var r := RowsOf(base, Frames(total, d))[i];
              r.fsID == i && r.frameName == FrameName(base, i) &&
              r.start == i * d && r.end == Min(i * d + d, total) &&
              r.salience == 1 && r.fold == 3 && r.classId == 2 && r.speakerLabel == "Sushan"
  {
    FrameCount(total, d);
    FrameStarts(total, d);
    RowsOfDistinct(base, Frames(total, d));
  }
}
