/** Loading and labelling the intersection tables, and combining them. */
module Intersections {
  import opened Wrappers
  import opened Seqs
  import opened Keys
  import opened Records

  /** One intersection input: its label and its parsed rows, or None when the
      file does not exist. */
  datatype Source = Source(sourceLabel: string, file: Option<seq<IntersectRow>>)

  function LabelRow(sourceLabel: string, row: IntersectRow): LabeledRow
  {
    LabeledRow(row, sourceLabel, IntersectKey(row.snpId))
  }

  /** `load_and_label_file`: a missing file gives an empty table; otherwise every
      row, in order, tagged with the label and its `unique_snp_key`. */
  function LoadAndLabel(src: Source): (r: seq<LabeledRow>)
    ensures src.file.None? ==> r == []
    ensures src.file.Some? ==> |r| == |src.file.value|
    ensures src.file.Some? ==> forall i :: 0 <= i < |r| ==>
      r[i].row == src.file.value[i] && r[i].source == src.sourceLabel && r[i].key == IntersectKey(src.file.value[i].snpId)
  {
    match src.file
    case None => []
    case Some(rows) => Map(rows, (row: IntersectRow) => LabelRow(src.sourceLabel, row))
  }

  /** `pd.concat(frames)`. */
  function Concat(frames: seq<seq<LabeledRow>>): seq<LabeledRow>
  {
    if frames == [] then [] else frames[0] + Concat(frames[1..])
  }

  /** `[df for df in frames if not df.empty]`. */
  function NonEmptyFrames(frames: seq<seq<LabeledRow>>): (r: seq<seq<LabeledRow>>)
    ensures forall i :: 0 <= i < |r| ==> r[i] != [] && r[i] in frames
  {
    if frames == [] then []
    else if frames[0] == [] then NonEmptyFrames(frames[1..])
    else [frames[0]] + NonEmptyFrames(frames[1..])
  }

  /** Dropping the empty tables before concatenating changes nothing, and leaves
      nothing exactly when every table was empty. */
  lemma {:induction false} NonEmptyFramesConcat(frames: seq<seq<LabeledRow>>)
    ensures Concat(NonEmptyFrames(frames)) == Concat(frames)
    ensures NonEmptyFrames(frames) == [] <==> forall i :: 0 <= i < |frames| ==> frames[i] == []
  {
    if frames != [] {
      NonEmptyFramesConcat(frames[1..]);
      if frames[0] != [] {
        assert ([frames[0]] + NonEmptyFrames(frames[1..]))[1..] == NonEmptyFrames(frames[1..]);
      } else {
        assert forall i :: 1 <= i < |frames| ==> frames[i] == frames[1..][i - 1];
      }
    }
  }

  /** A row is in a concatenation exactly when it is in one of the parts. */
  lemma {:induction false} ConcatMembers(frames: seq<seq<LabeledRow>>, x: LabeledRow)
    ensures x in Concat(frames) <==> exists i :: 0 <= i < |frames| && x in frames[i]
  {
    if frames != [] {
      ConcatMembers(frames[1..], x);
      if x in Concat(frames[1..]) {
        var i :| 0 <= i < |frames[1..]| && x in frames[1..][i];
        assert x in frames[i + 1];
      }
      if exists i :: 0 <= i < |frames| && x in frames[i] {
        var i :| 0 <= i < |frames| && x in frames[i];
        if i > 0 {
          assert x in frames[1..][i - 1];
        }
      }
    }
  }

  /** Step 2 up to the merge: the labelled tables of all sources, the empty ones
      dropped, concatenated in source order; fatal when nothing is left. */
  function CombineSources(sources: seq<Source>): (r: Result<seq<LabeledRow>, PipelineError>)
    ensures r.Err? <==> forall i :: 0 <= i < |sources| ==> LoadAndLabel(sources[i]) == []
    ensures r.Err? ==> r.error == NoIntersectInputs
    ensures r.Ok? ==> r.value == Concat(Map(sources, LoadAndLabel))
    ensures r.Ok? ==> forall x :: x in r.value <==>
      exists i :: 0 <= i < |sources| && x in LoadAndLabel(sources[i])
  {
    var frames := Map(sources, LoadAndLabel);
    NonEmptyFramesConcat(frames);
    if NonEmptyFrames(frames) == [] then Err(NoIntersectInputs)
    else
      var rows := Concat(NonEmptyFrames(frames));
      assert forall x :: x in rows <==> exists i :: 0 <= i < |frames| && x in frames[i] by {
        forall x {
          ConcatMembers(frames, x);
        }
      }
      Ok(rows)
  }
}
