/** The whole script from loaded inputs to the ranked summary table. */
module Pipeline {
  import opened Wrappers
  import opened Seqs
  import opened Text
  import opened Records
  import opened Keys
  import opened AfGapTable
  import opened Intersections
  import opened LeftJoin
  import opened Aggregate
  import opened Ranking

  /** Steps 2 to 4 once the inputs are combined: the join, both groupings and
      the final ordering. */
  function Summary(rows: seq<LabeledRow>, table: seq<AfGapRow>): (r: seq<SummaryRow>)
    ensures Ranked(r)
  {
    Rank(Summarize(GroupBySnpAndTerm(JoinAfGap(rows, table))))
  }

  /** The script on its inputs: each AF-gap table, or None when it cannot be
      read, and the intersection sources in order. Either AF-gap table missing
      stops it (the high-Fst one is read first), and so does having no rows from
      any intersection source; otherwise it yields the ranked summary. */
  function Run(highFstAf: Option<seq<AfGapRow>>, privateAf: Option<seq<AfGapRow>>, sources: seq<Source>)
    : (r: Result<seq<SummaryRow>, PipelineError>)
    ensures highFstAf.None? ==> r == Err(AfGapFileUnavailable(HighFstAfGaps))
    ensures highFstAf.Some? && privateAf.None? ==> r == Err(AfGapFileUnavailable(PrivateAfGaps))
    ensures highFstAf.Some? && privateAf.Some? ==>
      (r.Err? <==> forall i :: 0 <= i < |sources| ==> LoadAndLabel(sources[i]) == [])
    ensures r.Err? && highFstAf.Some? && privateAf.Some? ==> r.error == NoIntersectInputs
    ensures r.Ok? ==> Ranked(r.value)
  {
    if highFstAf.None? then Err(AfGapFileUnavailable(HighFstAfGaps))
    else if privateAf.None? then Err(AfGapFileUnavailable(PrivateAfGaps))
    else
      match CombineSources(sources)
      case Err(e) => Err(e)
      case Ok(rows) => Ok(Summary(rows, CombineAfGap(highFstAf.value, privateAf.value)))
  }

  /** The script's three intersection inputs, labelled and ordered as it does. */
  function Script(highFstAf: Option<seq<AfGapRow>>, privateAf: Option<seq<AfGapRow>>,
                  highFstHits: Option<seq<IntersectRow>>, privateSaHits: Option<seq<IntersectRow>>,
                  privateAusHits: Option<seq<IntersectRow>>): (r: Result<seq<SummaryRow>, PipelineError>)
    ensures highFstAf.Some? && privateAf.Some? ==>
      (r == Err(NoIntersectInputs) <==>
        (highFstHits.None? || highFstHits.value == []) &&
        (privateSaHits.None? || privateSaHits.value == []) &&
        (privateAusHits.None? || privateAusHits.value == []))
  {
    var sources := [Source("HighFST", highFstHits), Source("PrivateSA", privateSaHits), Source("PrivateAUS", privateAusHits)];
    assert LoadAndLabel(sources[0]) == [] <==> highFstHits.None? || highFstHits.value == [];
    assert LoadAndLabel(sources[1]) == [] <==> privateSaHits.None? || privateSaHits.value == [];
    assert LoadAndLabel(sources[2]) == [] <==> privateAusHits.None? || privateAusHits.value == [];
    assert (forall i :: 0 <= i < |sources| ==> LoadAndLabel(sources[i]) == []) <==>
      LoadAndLabel(sources[0]) == [] && LoadAndLabel(sources[1]) == [] && LoadAndLabel(sources[2]) == [];
    Run(highFstAf, privateAf, sources)
  }

  /** The (unique_snp_key, go_busco) pair of a labelled intersection row. */
  function LabeledPair(l: LabeledRow): (string, string)
  {
    (l.key, l.row.goBusco)
  }

  function LabelOf(l: LabeledRow): string
  {
    l.source
  }

  /** The join hands the first grouping the intersection rows' own pairs. */
  lemma {:induction false} JoinedPairs(rows: seq<LabeledRow>, highFst: seq<AfGapRow>, privateRows: seq<AfGapRow>)
    ensures Map(JoinAfGap(rows, CombineAfGap(highFst, privateRows)), PairOf) == Map(rows, LabeledPair)
  {
    JoinKeepsRows(rows, highFst, privateRows);
  }

  /** Ranking the second grouping keeps one row per (go_busco, combined_source)
      group of its input. */
  lemma {:induction false} RankedSummaryGroups(snpTerms: seq<SnpTermRow>)
    ensures Distinct(Map(Rank(Summarize(snpTerms)), SummaryGroup))
    ensures forall g :: g in Map(Rank(Summarize(snpTerms)), SummaryGroup) <==> g in Map(snpTerms, GroupOf)
  {
    RankKeepsGroups(Summarize(snpTerms));
  }

  /** ... and every ranked row still summarises its group. */
  lemma {:induction false} RankedSummaryRows(snpTerms: seq<SnpTermRow>)
    ensures forall x :: x in Rank(Summarize(snpTerms)) ==> SummarizesGroup(snpTerms, x)
  {
    var summary := Summarize(snpTerms);
    var out := Rank(summary);
    forall x | x in out
      ensures SummarizesGroup(snpTerms, x)
    {
      PermutationMember(summary, out, x);
    }
  }

  /** The summary holds one row per (go_busco, combined_source) group of the
      first grouping, each summarising its group. */
  lemma SummaryCoversGroups(rows: seq<LabeledRow>, table: seq<AfGapRow>)
    ensures var snpTerms := GroupBySnpAndTerm(JoinAfGap(rows, table));
      var out := Summary(rows, table);
      && Distinct(Map(out, SummaryGroup))
      && (forall g :: g in Map(out, SummaryGroup) <==> g in Map(snpTerms, GroupOf))
      && (forall x :: x in out ==> SummarizesGroup(snpTerms, x))
  {
    RankedSummaryGroups(GroupBySnpAndTerm(JoinAfGap(rows, table)));
    RankedSummaryRows(GroupBySnpAndTerm(JoinAfGap(rows, table)));
  }

  /** The `n_snps` column adds up to the number of distinct
      (unique_snp_key, go_busco) pairs among the intersection rows: no SNP-term
      pair is lost or counted twice. */
  lemma {:induction false} SummaryCountsPairs(rows: seq<LabeledRow>, highFst: seq<AfGapRow>, privateRows: seq<AfGapRow>)
    ensures TotalSnps(Summary(rows, CombineAfGap(highFst, privateRows))) == |set p | p in Map(rows, LabeledPair)|
  {
    var joined := JoinAfGap(rows, CombineAfGap(highFst, privateRows));
    var snpTerms := GroupBySnpAndTerm(joined);
    JoinedPairs(rows, highFst, privateRows);
    GroupBySnpAndTermCount(joined);
    TotalSnpsCountsRows(snpTerms);
    RankKeepsTotal(Summarize(snpTerms));
  }

  /** Run succeeds on readable AF-gap tables and a non-empty source, and its
      table accounts for every distinct SNP-term pair of the labelled rows. */
  lemma {:induction false} RunAccountsForPairs(highFst: seq<AfGapRow>, privateRows: seq<AfGapRow>, sources: seq<Source>)
    requires exists i :: 0 <= i < |sources| && LoadAndLabel(sources[i]) != []
    ensures var r := Run(Some(highFst), Some(privateRows), sources);
      r.Ok? && TotalSnps(r.value) == |set p | p in Map(Concat(Map(sources, LoadAndLabel)), LabeledPair)|
  {
    var c := CombineSources(sources);
    assert c.Ok?;
    SummaryCountsPairs(c.value, highFst, privateRows);
  }

  /** Joined rows that all share one pair form one group of the first grouping,
      with the AF_Gap of the first of them. */
  lemma {:induction false} GroupOfOnePair(joined: seq<JoinedRow>, p: (string, string))
    requires joined != []
    requires forall i :: 0 <= i < |joined| ==> PairOf(joined[i]) == p
    ensures GroupBySnpAndTerm(joined) == [SnpTermRow(p.0, p.1, CombinedSource(Map(joined, SourceOf)), joined[0].afGap)]
  {
    assert forall y :: y in Map(joined, PairOf) <==> y == p by {
      assert Map(joined, PairOf)[0] == p;
    }
    var snpTerms := GroupBySnpAndTerm(joined);
    OnlyElement(Map(snpTerms, TermPair), p);
    assert TermPair(snpTerms[0]) == p;
    assert First(joined, PairOf, p) == Some(joined[0]);
    WhereAll(joined, p);
  }

  /** Joining rows that share a key against a table with unique keys keeps the
      rows, their pair and their labels, and gives each the key's AF_Gap. */
  lemma {:induction false} JoinOnePair(rows: seq<LabeledRow>, table: seq<AfGapRow>)
    requires rows != []
    requires forall i :: 0 <= i < |rows| ==> LabeledPair(rows[i]) == LabeledPair(rows[0])
    requires UniqueKeys(table)
    ensures |JoinAfGap(rows, table)| == |rows|
    ensures forall i :: 0 <= i < |rows| ==> PairOf(JoinAfGap(rows, table)[i]) == LabeledPair(rows[0])
    ensures JoinAfGap(rows, table)[0].afGap == GapOrZero(table, rows[0].key)
    ensures Map(JoinAfGap(rows, table), SourceOf) == Map(rows, LabelOf)
  {
    MergeLeftUnique(rows, table);
  }

  /** Rows that all share one (unique_snp_key, go_busco) pair become one
      first-grouping row, labelled with all their sources and carrying the AF_Gap
      of the pair's key. */
  lemma {:induction false} OnePairGroup(rows: seq<LabeledRow>, table: seq<AfGapRow>)
    requires rows != []
    requires forall i :: 0 <= i < |rows| ==> LabeledPair(rows[i]) == LabeledPair(rows[0])
    requires UniqueKeys(table)
    ensures GroupBySnpAndTerm(JoinAfGap(rows, table)) ==
      [SnpTermRow(rows[0].key, rows[0].row.goBusco, CombinedSource(Map(rows, LabelOf)), GapOrZero(table, rows[0].key))]
  {
    JoinOnePair(rows, table);
    GroupOfOnePair(JoinAfGap(rows, table), LabeledPair(rows[0]));
  }

  /** A single first-grouping row becomes a single summary row: one SNP, and
      sum, mean and max all equal its AF_Gap. */
  lemma OneRowSummary(t: SnpTermRow)
    ensures Summarize([t]) == [SummaryRow(t.goBusco, t.combinedSource, 1, t.afGap, t.afGap, t.afGap)]
  {
    var summary := Summarize([t]);
    assert Map([t], GroupOf) == [GroupOf(t)];
    OnlyElement(Map(summary, SummaryGroup), GroupOf(t));
    var x := summary[0];
    assert SummarizesGroup([t], x);
    assert Where([t], GroupOf, GroupOf(t)) == [t];
    assert Map([t], GapOf) == [t.afGap];
    assert Sum([t.afGap]) == t.afGap + Sum([]);
    assert x.meanAfGap * 1.0 == t.afGap;
  }

  /** Rows that all share one (unique_snp_key, go_busco) pair become one summary
      row: one SNP, and sum, mean and max all equal the AF_Gap of the pair's key. */
  lemma {:induction false} OnePairSummary(rows: seq<LabeledRow>, table: seq<AfGapRow>)
    requires rows != []
    requires forall i :: 0 <= i < |rows| ==> LabeledPair(rows[i]) == LabeledPair(rows[0])
    requires UniqueKeys(table)
    ensures var g := GapOrZero(table, rows[0].key);
      Summary(rows, table) == [SummaryRow(rows[0].row.goBusco, CombinedSource(Map(rows, LabelOf)), 1, g, g, g)]
  {
    OnePairGroup(rows, table);
    var g := GapOrZero(table, rows[0].key);
    var t := SnpTermRow(rows[0].key, rows[0].row.goBusco, CombinedSource(Map(rows, LabelOf)), g);
    OneRowSummary(t);
    var x := SummaryRow(t.goBusco, t.combinedSource, 1, g, g, g);
    assert Rank([x]) == [x];
  }

  /** A key found in neither AF-gap table gets AF_Gap 0 after the join. */
  lemma UnmatchedKeyGetsZero(highFst: seq<AfGapRow>, privateRows: seq<AfGapRow>, k: string)
    requires k !in Map(highFst, RowKey) && k !in Map(privateRows, RowKey)
    ensures GapOrZero(CombineAfGap(highFst, privateRows), k) == 0.0
  {
    CombineAfGapKeys(highFst, privateRows, k);
    FirstSpec(CombineAfGap(highFst, privateRows), RowKey, k);
  }

  /** A key the high-Fst table holds gets the high-Fst AF_Gap after the join. */
  lemma HighFstKeyGetsItsGap(highFst: seq<AfGapRow>, privateRows: seq<AfGapRow>, i: nat)
    requires i < |highFst|
    requires forall j :: 0 <= j < i ==> RowKey(highFst[j]) != RowKey(highFst[i])
    ensures GapOrZero(CombineAfGap(highFst, privateRows), RowKey(highFst[i])) == highFst[i].afGap
  {
    CombineAfGapKeys(highFst, privateRows, RowKey(highFst[i]));
    FirstAt(highFst, RowKey, i);
  }

  /** With readable AF-gap tables and some intersection rows, Run yields the
      summary of exactly the concatenated labelled rows. */
  lemma {:induction false} RunOnRows(highFst: seq<AfGapRow>, privateRows: seq<AfGapRow>, sources: seq<Source>, rows: seq<LabeledRow>)
    requires Concat(Map(sources, LoadAndLabel)) == rows && rows != []
    ensures Run(Some(highFst), Some(privateRows), sources) == Ok(Summary(rows, CombineAfGap(highFst, privateRows)))
  {
    var frames := Map(sources, LoadAndLabel);
    NonEmptyFramesConcat(frames);
    assert NonEmptyFrames(frames) != [];
    assert CombineSources(sources) == Ok(rows);
  }

  /** The AF-gap table the scenarios below share. */
  function ScenarioAfGaps(): seq<AfGapRow>
  {
    [AfGapRow("chr1", 100, 0.5), AfGapRow("chr1", 200, 0.3)]
  }

  function ScenarioHit(snpId: string, term: string): IntersectRow
  {
    IntersectRow("chr1", 99, 100, snpId, "chr1", 50, 500, term)
  }

  lemma Positions()
    ensures DecimalString(100) == "100"
    ensures DecimalString(200) == "200"
    ensures DecimalString(300) == "300"
  {
    assert DecimalString(1) == "1" && DecimalString(10) == "10";
    assert DecimalString(2) == "2" && DecimalString(20) == "20";
    assert DecimalString(3) == "3" && DecimalString(30) == "30";
  }

  lemma ScenarioTableKeys()
    ensures Map(ScenarioAfGaps(), RowKey) == ["chr1:100", "chr1:200"]
  {
    Positions();
    assert RowKey(ScenarioAfGaps()[0]) == "chr1:100";
    assert RowKey(ScenarioAfGaps()[1]) == "chr1:200";
  }

  lemma MatchedHitKey()
    ensures IntersectKey("chr1:100:rsX") == "chr1:100"
  {
    Positions();
    IntersectKeyMatchesAfKey("chr1", 100, "rsX");
    assert AfKey("chr1", 100) == "chr1:100";
    assert "chr1:100" + ":" + "rsX" == "chr1:100:rsX";
  }

  lemma UnmatchedHitKey()
    ensures IntersectKey("chr2:300:rsZ") == "chr2:300"
  {
    Positions();
    IntersectKeyMatchesAfKey("chr2", 300, "rsZ");
    assert AfKey("chr2", 300) == "chr2:300";
    assert "chr2:300" + ":" + "rsZ" == "chr2:300:rsZ";
  }

  lemma UnmatchedKeyAbsent()
    ensures "chr2:300" !in Map(ScenarioAfGaps(), RowKey)
    ensures "chr2:300" !in Map([], RowKey)
  {
    ScenarioTableKeys();
    assert "chr2:300"[3] != "chr1:100"[3] && "chr2:300"[3] != "chr1:200"[3];
  }

  /** The labelled rows of three sources of which only the first two can hold rows. */
  lemma TwoSourceRows(a: Source, b: Source, c: Source)
    requires c.file.None?
    ensures Concat(Map([a, b, c], LoadAndLabel)) == LoadAndLabel(a) + LoadAndLabel(b)
  {
    var frames := Map([a, b, c], LoadAndLabel);
    assert frames == [LoadAndLabel(a), LoadAndLabel(b), []];
    assert frames[1..] == [LoadAndLabel(b), []] && frames[1..][1..] == [[]];
    assert Concat([[]]) == [];
  }

  /** A single labelled row gives one summary row: one SNP under the row's
      label, whose AF_Gap is the sum, the mean and the maximum. */
  lemma {:induction false} SingleRowSummary(l: LabeledRow, table: seq<AfGapRow>)
    requires UniqueKeys(table)
    ensures var g := GapOrZero(table, l.key);
      Summary([l], table) == [SummaryRow(l.row.goBusco, l.source, 1, g, g, g)]
  {
    OnePairSummary([l], table);
    LabelsOfOne(l);
  }

  lemma LabelsOfOne(l: LabeledRow)
    ensures CombinedSource(Map([l], LabelOf)) == l.source
  {
    var labels := Map([l], LabelOf);
    assert |labels| == 1 && labels[0] == l.source;
    CombinedSourceSingle(labels, l.source);
  }

  /** One row labelled HighFST and then PrivateSA gives one summary row
      labelled "HighFST, PrivateSA" that counts the SNP once. */
  lemma {:induction false} SharedRowSummary(l1: LabeledRow, l2: LabeledRow, table: seq<AfGapRow>)
    requires UniqueKeys(table)
    requires l1.source == "HighFST" && l2.source == "PrivateSA" && LabeledPair(l1) == LabeledPair(l2)
    ensures var g := GapOrZero(table, l1.key);
      Summary([l1, l2], table) == [SummaryRow(l1.row.goBusco, "HighFST, PrivateSA", 1, g, g, g)]
  {
    OnePairSummary([l1, l2], table);
    LabelsOfShared(l1, l2);
  }

  lemma LabelsOfShared(l1: LabeledRow, l2: LabeledRow)
    requires l1.source == "HighFST" && l2.source == "PrivateSA"
    ensures CombinedSource(Map([l1, l2], LabelOf)) == "HighFST, PrivateSA"
  {
    var labels := Map([l1, l2], LabelOf);
    assert |labels| == 2 && labels[0] == l1.source && labels[1] == l2.source;
    assert forall x :: x in labels <==> x == "HighFST" || x == "PrivateSA";
    CombinedSourceHighFstPrivateSa(labels);
  }

  /** Inputs that label a single row give one summary row: one SNP under that
      row's label, whose AF_Gap is the sum, the mean and the maximum. */
  lemma {:induction false} SingleRowRun(highFst: seq<AfGapRow>, privateRows: seq<AfGapRow>, sources: seq<Source>, l: LabeledRow)
    requires Concat(Map(sources, LoadAndLabel)) == [l]
    ensures var g := GapOrZero(CombineAfGap(highFst, privateRows), l.key);
      Run(Some(highFst), Some(privateRows), sources) == Ok([SummaryRow(l.row.goBusco, l.source, 1, g, g, g)])
  {
    RunOnRows(highFst, privateRows, sources, [l]);
    SingleRowSummary(l, CombineAfGap(highFst, privateRows));
  }

  /** Inputs that label one row twice, under HighFST and then PrivateSA, give
      one summary row labelled "HighFST, PrivateSA" that counts the SNP once. */
  lemma {:induction false} SharedRowRun(highFst: seq<AfGapRow>, privateRows: seq<AfGapRow>, sources: seq<Source>,
                                        l1: LabeledRow, l2: LabeledRow)
    requires Concat(Map(sources, LoadAndLabel)) == [l1, l2]
    requires l1.source == "HighFST" && l2.source == "PrivateSA" && LabeledPair(l1) == LabeledPair(l2)
    ensures var g := GapOrZero(CombineAfGap(highFst, privateRows), l1.key);
      Run(Some(highFst), Some(privateRows), sources) == Ok([SummaryRow(l1.row.goBusco, "HighFST, PrivateSA", 1, g, g, g)])
  {
    RunOnRows(highFst, privateRows, sources, [l1, l2]);
    SharedRowSummary(l1, l2, CombineAfGap(highFst, privateRows));
  }

  /** A single high-Fst hit, and nothing from the private sources, gives one
      summary row: one SNP whose AF_Gap is the sum, the mean and the maximum. */
  lemma SingleHit(highFst: seq<AfGapRow>, privateRows: seq<AfGapRow>, hit: IntersectRow)
    ensures var g := GapOrZero(CombineAfGap(highFst, privateRows), IntersectKey(hit.snpId));
      Script(Some(highFst), Some(privateRows), Some([hit]), None, None)
        == Ok([SummaryRow(hit.goBusco, "HighFST", 1, g, g, g)])
  {
    var a, b, c := Source("HighFST", Some([hit])), Source("PrivateSA", None), Source("PrivateAUS", None);
    var l := LabelRow("HighFST", hit);
    assert LoadAndLabel(a) == [l];
    TwoSourceRows(a, b, c);
    SingleRowRun(highFst, privateRows, [a, b, c], l);
  }

  /** The same hit in the HighFST and PrivateSA sources gives one summary row
      labelled "HighFST, PrivateSA" that counts the SNP once. */
  lemma SharedHit(highFst: seq<AfGapRow>, privateRows: seq<AfGapRow>, hit: IntersectRow)
    ensures var g := GapOrZero(CombineAfGap(highFst, privateRows), IntersectKey(hit.snpId));
      Script(Some(highFst), Some(privateRows), Some([hit]), Some([hit]), None)
        == Ok([SummaryRow(hit.goBusco, "HighFST, PrivateSA", 1, g, g, g)])
  {
    var a, b, c := Source("HighFST", Some([hit])), Source("PrivateSA", Some([hit])), Source("PrivateAUS", None);
    var l1, l2 := LabelRow("HighFST", hit), LabelRow("PrivateSA", hit);
    assert LoadAndLabel(a) == [l1];
    assert LoadAndLabel(b) == [l2];
    TwoSourceRows(a, b, c);
    SharedRowRun(highFst, privateRows, [a, b, c], l1, l2);
  }

  /** A high-Fst hit on a SNP of the AF-gap table gives one summary row whose
      sum, mean and max are that SNP's AF_Gap. */
  lemma ScenarioMatchedSnp()
    ensures Script(Some(ScenarioAfGaps()), Some([]), Some([ScenarioHit("chr1:100:rsX", "GO:0001")]), None, None)
      == Ok([SummaryRow("GO:0001", "HighFST", 1, 0.5, 0.5, 0.5)])
  {
    MatchedHitKey();
    ScenarioTableKeys();
    HighFstKeyGetsItsGap(ScenarioAfGaps(), [], 0);
    SingleHit(ScenarioAfGaps(), [], ScenarioHit("chr1:100:rsX", "GO:0001"));
  }

  /** A SNP-term pair hit under HighFST and PrivateSA is one SNP labelled
      "HighFST, PrivateSA", not two. */
  lemma ScenarioSharedSnp()
    ensures Script(Some(ScenarioAfGaps()), Some([]), Some([ScenarioHit("chr1:100:rsX", "GO:0001")]),
                   Some([ScenarioHit("chr1:100:rsX", "GO:0001")]), None)
      == Ok([SummaryRow("GO:0001", "HighFST, PrivateSA", 1, 0.5, 0.5, 0.5)])
  {
    MatchedHitKey();
    ScenarioTableKeys();
    HighFstKeyGetsItsGap(ScenarioAfGaps(), [], 0);
    SharedHit(ScenarioAfGaps(), [], ScenarioHit("chr1:100:rsX", "GO:0001"));
  }

  /** A hit on a SNP missing from both AF-gap tables counts with AF_Gap 0. */
  lemma ScenarioUnmatchedSnp()
    ensures Script(Some(ScenarioAfGaps()), Some([]), Some([ScenarioHit("chr2:300:rsZ", "GO:0002")]), None, None)
      == Ok([SummaryRow("GO:0002", "HighFST", 1, 0.0, 0.0, 0.0)])
  {
    UnmatchedHitKey();
    UnmatchedKeyAbsent();
    UnmatchedKeyGetsZero(ScenarioAfGaps(), [], "chr2:300");
    SingleHit(ScenarioAfGaps(), [], ScenarioHit("chr2:300:rsZ", "GO:0002"));
  }

  /** Every row keeps its pair when every row has it. */
  lemma {:induction false} WhereAll(joined: seq<JoinedRow>, p: (string, string))
    requires forall i :: 0 <= i < |joined| ==> PairOf(joined[i]) == p
    ensures Where(joined, PairOf, p) == joined
  {
    if joined != [] {
      WhereAll(joined[1..], p);
      assert joined == [joined[0]] + joined[1..];
    }
  }
}
