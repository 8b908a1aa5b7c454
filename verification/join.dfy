/** The left join of the combined intersection rows against the combined AF-gap
    table on `unique_snp_key`, followed by `fillna(0)` on AF_Gap. */
module LeftJoin {
  import opened Wrappers
  import opened Seqs
  import opened Records
  import opened AfGapTable

  /** A merged row before `fillna`: None stands for NaN. */
  datatype MergedRow = MergedRow(row: LabeledRow, afGap: Option<real>)

  /** `merge(how='left')` for one left row: one output row per table row with a
      matching key, in table order, the i-th carrying the i-th match's AF_Gap,
      or a single row with NaN when none matches. */
  function MergeOne(l: LabeledRow, table: seq<AfGapRow>): (r: seq<MergedRow>)
    ensures |r| >= 1
    ensures forall i :: 0 <= i < |r| ==> r[i].row == l
    ensures r == [MergedRow(l, None)] <==> l.key !in Map(table, RowKey)
    ensures l.key in Map(table, RowKey) ==> forall i :: 0 <= i < |r| ==>
      r[i].afGap.Some? && exists t :: t in table && RowKey(t) == l.key && t.afGap == r[i].afGap.value
    ensures l.key in Map(table, RowKey) ==> |r| == Occurrences(Map(table, RowKey), l.key)
    ensures l.key in Map(table, RowKey) ==>
      |r| == |Where(table, RowKey, l.key)| &&
      forall i :: 0 <= i < |r| ==> r[i].afGap == Some(Where(table, RowKey, l.key)[i].afGap)
  {
    var matches := Where(table, RowKey, l.key);
    WhereCount(table, RowKey, l.key);
    if matches == [] then [MergedRow(l, None)]
    else Map(matches, (m: AfGapRow) => MergedRow(l, Some(m.afGap)))
  }

  /** `pd.merge(left, table, on='unique_snp_key', how='left')`: the left rows in
      order, each expanded by its matches. */
  function MergeLeft(left: seq<LabeledRow>, table: seq<AfGapRow>): (r: seq<MergedRow>)
    ensures |r| >= |left|
  {
    if left == [] then [] else MergeOne(left[0], table) + MergeLeft(left[1..], table)
  }

  /** Every merged row comes from some left row: the merge adds no rows of its own. */
  lemma {:induction false} MergeLeftRows(left: seq<LabeledRow>, table: seq<AfGapRow>)
    ensures forall j :: 0 <= j < |MergeLeft(left, table)| ==> MergeLeft(left, table)[j].row in left
  {
    if left != [] {
      MergeLeftRows(left[1..], table);
      RowsOfAppend(MergeOne(left[0], table), MergeLeft(left[1..], table), left);
    }
  }

  lemma RowsOfAppend(head: seq<MergedRow>, rest: seq<MergedRow>, left: seq<LabeledRow>)
    requires left != []
    requires forall i :: 0 <= i < |head| ==> head[i].row == left[0]
    requires forall j :: 0 <= j < |rest| ==> rest[j].row in left[1..]
    ensures forall j :: 0 <= j < |head + rest| ==> (head + rest)[j].row in left
  {
    forall j | 0 <= j < |head + rest| ensures (head + rest)[j].row in left {
      if j >= |head| {
        assert (head + rest)[j] == rest[j - |head|];
        assert rest[j - |head|].row in left[1..];
      }
    }
  }

  /** The merge works row by row: merging a concatenation merges each part,
      in order, so `MergeLeft` is `MergeOne` of each left row, concatenated. */
  lemma {:induction false} MergeLeftAppend(a: seq<LabeledRow>, b: seq<LabeledRow>, table: seq<AfGapRow>)
    ensures MergeLeft(a + b, table) == MergeLeft(a, table) + MergeLeft(b, table)
  {
    if a == [] {
      assert a + b == b;
    } else {
      var ab := a + b;
      assert ab[0] == a[0] && ab[1..] == a[1..] + b;
      MergeLeftAppend(a[1..], b, table);
      ConcatShift(MergeLeft(ab, table), MergeLeft(a, table), MergeOne(a[0], table),
                  MergeLeft(a[1..] + b, table), MergeLeft(a[1..], table), MergeLeft(b, table));
    }
  }

  function FillGap(m: MergedRow): JoinedRow
  {
    JoinedRow(m.row, if m.afGap.Some? then m.afGap.value else 0.0)
  }

  /** `merge(how='left')` then `AF_Gap.fillna(0)`. */
  function JoinAfGap(left: seq<LabeledRow>, table: seq<AfGapRow>): (r: seq<JoinedRow>)
    ensures |r| >= |left|
    ensures forall j :: 0 <= j < |r| ==> r[j].row in left
  {
    MergeLeftRows(left, table);
    Map(MergeLeft(left, table), FillGap)
  }

  /** The AF_Gap a key receives from the table: the matching row's value, or 0. */
  function GapOrZero(table: seq<AfGapRow>, k: string): real
  {
    match First(table, RowKey, k)
    case Some(x) => x.afGap
    case None => 0.0
  }

  /** With unique table keys the merge is one-to-one: the i-th output row is the
      i-th left row with its key's AF_Gap, or 0 when the key is not in the table. */
  lemma {:induction false} MergeLeftUnique(left: seq<LabeledRow>, table: seq<AfGapRow>)
    requires UniqueKeys(table)
    ensures |MergeLeft(left, table)| == |left|
    ensures forall i :: 0 <= i < |left| ==>
      FillGap(MergeLeft(left, table)[i]) == JoinedRow(left[i], GapOrZero(table, left[i].key))
  {
    if left != [] {
      WhereOfDistinctKeys(table, RowKey, left[0].key);
      MergeLeftUnique(left[1..], table);
      var head := MergeOne(left[0], table);
      assert |head| == 1;
      assert FillGap(head[0]) == JoinedRow(left[0], GapOrZero(table, left[0].key));
      forall i | 1 <= i < |left|
        ensures FillGap(MergeLeft(left, table)[i]) == JoinedRow(left[i], GapOrZero(table, left[i].key))
      {
        assert MergeLeft(left, table)[i] == MergeLeft(left[1..], table)[i - 1];
        assert left[1..][i - 1] == left[i];
      }
    }
  }

  /** The join keeps every intersection row, in order, unchanged, exactly once,
      because the combined AF-gap table has unique keys; AF_Gap is the combined
      table's value for the key, or 0 when the key is absent. */
  lemma JoinKeepsRows(left: seq<LabeledRow>, highFst: seq<AfGapRow>, privateRows: seq<AfGapRow>)
    ensures |JoinAfGap(left, CombineAfGap(highFst, privateRows))| == |left|
    ensures forall i :: 0 <= i < |left| ==>
      JoinAfGap(left, CombineAfGap(highFst, privateRows))[i] ==
        JoinedRow(left[i], GapOrZero(CombineAfGap(highFst, privateRows), left[i].key))
  {
    MergeLeftUnique(left, CombineAfGap(highFst, privateRows));
  }

  /** Without unique keys the row count is not kept: one left row whose key two
      table rows share comes out twice. */
  lemma JoinRepeatsOnDuplicateKeys(l: LabeledRow, a: AfGapRow, b: AfGapRow)
    requires RowKey(a) == l.key && RowKey(b) == l.key
    ensures |JoinAfGap([l], [a, b])| == 2
  {
    assert [a, b][1..] == [b];
    assert Where([a, b], RowKey, l.key) == [a, b];
    assert MergeLeft([l], [a, b]) == MergeOne(l, [a, b]) + MergeLeft([], [a, b]);
  }
}
