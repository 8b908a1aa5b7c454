/** The two aggregation steps: per (unique_snp_key, go_busco) pair, then per
    (go_busco, combined_source) pair. */
module Aggregate {
  import opened Wrappers
  import opened Seqs
  import opened Text
  import opened Records

  // ---------------------------------------------------------------- labels

  /** `sorted(x.unique())` over the source labels of a group. */
  function SourceList(labels: seq<string>): (r: seq<string>)
    ensures StrictlyIncreasing(r)
    ensures forall x :: x in r <==> x in labels
  {
    var u := Unique(labels);
    var r := SortStrings(u);
    DistinctMultiset(u);
    DistinctMultiset(r);
    SortedDistinctIsStrict(r);
    assert forall x :: x in r <==> x in multiset(u);
    r
  }

  /** `', '.join(sorted(x.unique()))`. */
  function CombinedSource(labels: seq<string>): string
  {
    Join(SourceList(labels), ", ")
  }

  /** The combined label depends only on which labels occur: not on their order,
      nor on how often each occurs. */
  lemma CombinedSourceOnlyDependsOnLabelSet(a: seq<string>, b: seq<string>)
    requires forall x :: x in a <==> x in b
    ensures CombinedSource(a) == CombinedSource(b)
  {
    StrictlyIncreasingUnique(SourceList(a), SourceList(b));
  }

  /** A group seen under one label only is labelled with it alone. */
  lemma CombinedSourceSingle(labels: seq<string>, l: string)
    requires labels != []
    requires forall i :: 0 <= i < |labels| ==> labels[i] == l
    ensures CombinedSource(labels) == l
  {
    assert labels[0] in labels;
    StrictlyIncreasingUnique(SourceList(labels), [l]);
  }

  /** A group seen under exactly two labels is labelled with both, the lower
      one first. */
  lemma CombinedSourceTwo(labels: seq<string>, a: string, b: string)
    requires LexLess(a, b)
    requires forall x :: x in labels <==> x == a || x == b
    ensures CombinedSource(labels) == a + ", " + b
  {
    var u := [a, b];
    assert StrictlyIncreasing(u);
    StrictlyIncreasingUnique(SourceList(labels), u);
    JoinTwo(a, b, ", ");
  }

  /** A key seen under HighFST and PrivateSA, in any order and any number of
      times, is labelled "HighFST, PrivateSA". */
  lemma CombinedSourceHighFstPrivateSa(labels: seq<string>)
    requires forall x :: x in labels <==> x == "HighFST" || x == "PrivateSA"
    ensures CombinedSource(labels) == "HighFST, PrivateSA"
  {
    HighFstBeforePrivateSa();
    HighFstPrivateSaJoined();
    CombinedSourceTwo(labels, "HighFST", "PrivateSA");
  }

  /** The joined literal, stated apart from the quantified requires above: proved
      in that context, the solver takes over twenty times as long. */
  lemma HighFstPrivateSaJoined()
    ensures "HighFST" + ", " + "PrivateSA" == "HighFST, PrivateSA"
  {
  }

  lemma HighFstBeforePrivateSa()
    ensures LexLess("HighFST", "PrivateSA")
  {
    var a, b := "HighFST", "PrivateSA";
    assert a[0] == 'H' && b[0] == 'P';
  }

  // ---------------------------------------------------- first grouping

  /** The (unique_snp_key, go_busco) pair of a joined row. */
  function PairOf(j: JoinedRow): (string, string)
  {
    (j.row.key, j.row.row.goBusco)
  }

  function SourceOf(j: JoinedRow): string
  {
    j.row.source
  }

  /** The (unique_snp_key, go_busco) pair of a first-grouping row. */
  function TermPair(g: SnpTermRow): (string, string)
  {
    (g.key, g.goBusco)
  }

  /** One group of the first grouping: `combined_source` from the labels and
      AF_Gap `first`. */
  function SnpTermOf(p: (string, string), members: seq<JoinedRow>): SnpTermRow
    requires members != []
  {
    SnpTermRow(p.0, p.1, CombinedSource(Map(members, SourceOf)), members[0].afGap)
  }

  function SnpTermGroups(rows: seq<JoinedRow>, pairs: seq<(string, string)>): (r: seq<SnpTermRow>)
    requires forall i :: 0 <= i < |pairs| ==> pairs[i] in Map(rows, PairOf)
    ensures |r| == |pairs|
    ensures forall i :: 0 <= i < |r| ==> r[i] == SnpTermOf(pairs[i], Where(rows, PairOf, pairs[i]))
  {
    seq(|pairs|, i requires 0 <= i < |pairs| => SnpTermOf(pairs[i], Where(rows, PairOf, pairs[i])))
  }

  /** `groupby(['unique_snp_key', 'go_busco']).agg(...)`: one row per distinct
      pair, carrying the sorted distinct labels of its rows and the AF_Gap of the
      first of its rows. */
  function GroupBySnpAndTerm(rows: seq<JoinedRow>): (r: seq<SnpTermRow>)
    ensures Distinct(Map(r, TermPair))
    ensures forall p :: p in Map(r, TermPair) <==> p in Map(rows, PairOf)
    ensures forall i :: 0 <= i < |r| ==>
      First(rows, PairOf, TermPair(r[i])).Some? &&
      r[i].afGap == First(rows, PairOf, TermPair(r[i])).value.afGap
    ensures forall i :: 0 <= i < |r| ==>
      r[i].combinedSource == CombinedSource(Map(Where(rows, PairOf, TermPair(r[i])), SourceOf))
  {
    var pairs := Unique(Map(rows, PairOf));
    var r := SnpTermGroups(rows, pairs);
    assert Map(r, TermPair) == pairs;
    r
  }

  /** The first grouping has as many rows as there are distinct
      (unique_snp_key, go_busco) pairs among its input rows. */
  lemma GroupBySnpAndTermCount(rows: seq<JoinedRow>)
    ensures |GroupBySnpAndTerm(rows)| == |set p | p in Map(rows, PairOf)|
  {
    var pairs := Map(GroupBySnpAndTerm(rows), TermPair);
    DistinctCardinality(pairs);
    SameElementsSameSet(pairs, Map(rows, PairOf));
  }

  /** The first grouping partitions its input: each joined row falls in exactly
      one (unique_snp_key, go_busco) group, so the group sizes add up to the
      number of rows. */
  lemma GroupBySnpAndTermPartition(rows: seq<JoinedRow>)
    ensures GroupSizes(rows, PairOf, Map(GroupBySnpAndTerm(rows), TermPair)) == |rows|
  {
    var pairs := Map(GroupBySnpAndTerm(rows), TermPair);
    var keys := Map(rows, PairOf);
    assert Distinct(pairs);
    assert forall p :: p in keys ==> p in pairs;
    forall i | 0 <= i < |rows| ensures PairOf(rows[i]) in pairs {
      assert keys[i] == PairOf(rows[i]);
    }
    GroupSizesPartition(rows, PairOf, pairs);
  }

  // --------------------------------------------------- second grouping

  /** `sum` of AF_Gap values. */
  function Sum(vs: seq<real>): real
  {
    if vs == [] then 0.0 else vs[0] + Sum(vs[1..])
  }

  /** `max` of AF_Gap values: an upper bound of them ... */
  function Max(vs: seq<real>): (m: real)
    requires vs != []
    ensures forall i :: 0 <= i < |vs| ==> vs[i] <= m
  {
    if |vs| == 1 then vs[0]
    else
      var rest := Max(vs[1..]);
      if vs[0] >= rest then vs[0] else rest
  }

  /** ... that is one of them. */
  lemma {:induction false} MaxAttained(vs: seq<real>)
    requires vs != []
    ensures Max(vs) in vs
  {
    if |vs| > 1 {
      MaxAttained(vs[1..]);
    }
  }

  /** One step of the bound below, over plain reals. */
  lemma SumBoundStep(v: real, restSum: real, n: real, restTop: real, top: real)
    requires n >= 0.0 && restSum <= n * restTop && restTop <= top && v <= top
    ensures v + restSum <= (n + 1.0) * top
  {
    assert n * restTop <= n * top;
  }

  /** The sum never exceeds count times maximum, so the mean never exceeds the maximum. */
  lemma {:induction false} SumAtMostCountTimesMax(vs: seq<real>)
    requires vs != []
    ensures Sum(vs) <= (|vs| as real) * Max(vs)
  {
    if |vs| > 1 {
      SumAtMostCountTimesMax(vs[1..]);
      SumBoundStep(vs[0], Sum(vs[1..]), |vs[1..]| as real, Max(vs[1..]), Max(vs));
    }
  }

  /** The mean times the count is the total, and the mean is at most any bound
      that count times the bound dominates. */
  lemma MeanBound(total: real, n: real, top: real)
    requires n > 0.0 && total <= n * top
    ensures (total / n) * n == total
    ensures total / n <= top
  {
    var mean := total / n;
    assert mean * n == total;
    if mean > top {
      assert n * mean > n * top;
    }
  }

  /** The (go_busco, combined_source) pair of a first-grouping row. */
  function GroupOf(g: SnpTermRow): (string, string)
  {
    (g.goBusco, g.combinedSource)
  }

  function GapOf(g: SnpTermRow): real
  {
    g.afGap
  }

  function KeyOf(g: SnpTermRow): string
  {
    g.key
  }

  /** The (go_busco, combined_source) pair of a summary row. */
  function SummaryGroup(s: SummaryRow): (string, string)
  {
    (s.goBusco, s.combinedSource)
  }

  /** The maximum of a group's AF_Gap values bounds every member's and is some member's. */
  lemma MaxOfMembers(members: seq<SnpTermRow>)
    requires members != []
    ensures forall m :: m in members ==> m.afGap <= Max(Map(members, GapOf))
    ensures exists m :: m in members && m.afGap == Max(Map(members, GapOf))
  {
    var gaps := Map(members, GapOf);
    forall m | m in members
      ensures m.afGap <= Max(gaps)
    {
      var i :| 0 <= i < |members| && members[i] == m;
      assert gaps[i] == m.afGap;
    }
    MaxAttained(gaps);
    var i :| 0 <= i < |gaps| && gaps[i] == Max(gaps);
    assert members[i] in members;
  }

  /** One group of the second grouping: `count`, `sum`, `mean` and `max`. */
  function SummaryOf(g: (string, string), members: seq<SnpTermRow>): (r: SummaryRow)
    requires members != []
    ensures SummaryGroup(r) == g
    ensures r.nSnps == |members| && r.nSnps >= 1
    ensures r.sumAfGap == Sum(Map(members, GapOf))
    ensures r.meanAfGap * (r.nSnps as real) == r.sumAfGap
    ensures r.meanAfGap <= r.maxAfGap
    ensures forall m :: m in members ==> m.afGap <= r.maxAfGap
    ensures exists m :: m in members && m.afGap == r.maxAfGap
  {
    var gaps := Map(members, GapOf);
    var n := |members| as real;
    var total := Sum(gaps);
    var top := Max(gaps);
    SumAtMostCountTimesMax(gaps);
    MeanBound(total, n, top);
    MaxOfMembers(members);
    SummaryRow(g.0, g.1, |members|, total, total / n, top)
  }

  function Summaries(rows: seq<SnpTermRow>, groups: seq<(string, string)>): (r: seq<SummaryRow>)
    requires forall i :: 0 <= i < |groups| ==> groups[i] in Map(rows, GroupOf)
    ensures |r| == |groups|
    ensures forall i :: 0 <= i < |r| ==> r[i] == SummaryOf(groups[i], Where(rows, GroupOf, groups[i]))
  {
    seq(|groups|, i requires 0 <= i < |groups| => SummaryOf(groups[i], Where(rows, GroupOf, groups[i])))
  }

  /** `s` summarises its own (go_busco, combined_source) group of `rows`: the
      group is not empty, `n_snps` counts its rows, `sum_AF_Gap` adds their AF_Gap,
      `mean_AF_Gap` times `n_snps` is the sum, and `max_AF_Gap` bounds every
      member's AF_Gap, is some member's, and is not below the mean. */
  predicate SummarizesGroup(rows: seq<SnpTermRow>, s: SummaryRow)
  {
    var members := Where(rows, GroupOf, SummaryGroup(s));
    && members != []
    && s.nSnps == |members|
    && s.sumAfGap == Sum(Map(members, GapOf))
    && s.meanAfGap * (s.nSnps as real) == s.sumAfGap
    && s.meanAfGap <= s.maxAfGap
    && (forall m :: m in members ==> m.afGap <= s.maxAfGap)
    && (exists m :: m in members && m.afGap == s.maxAfGap)
  }

  lemma SummaryOfSummarizes(rows: seq<SnpTermRow>, g: (string, string))
    requires g in Map(rows, GroupOf)
    ensures SummarizesGroup(rows, SummaryOf(g, Where(rows, GroupOf, g)))
  {
  }

  /** `groupby(['go_busco', 'combined_source']).agg(...)`: one summary row per
      distinct pair, each summarising its group. */
  function Summarize(rows: seq<SnpTermRow>): (r: seq<SummaryRow>)
    ensures Distinct(Map(r, SummaryGroup))
    ensures forall g :: g in Map(r, SummaryGroup) <==> g in Map(rows, GroupOf)
    ensures forall i :: 0 <= i < |r| ==> SummarizesGroup(rows, r[i])
  {
    var groups := Unique(Map(rows, GroupOf));
    var r := Summaries(rows, groups);
    assert Map(r, SummaryGroup) == groups;
    assert forall i :: 0 <= i < |r| ==> SummarizesGroup(rows, r[i]) by {
      forall i | 0 <= i < |r| {
        SummaryOfSummarizes(rows, groups[i]);
      }
    }
    r
  }

  /** Total of `n_snps` over summary rows. */
  function TotalSnps(s: seq<SummaryRow>): nat
  {
    if s == [] then 0 else s[0].nSnps + TotalSnps(s[1..])
  }

  lemma {:induction false} TotalSnpsOfSummaries(rows: seq<SnpTermRow>, groups: seq<(string, string)>)
    requires forall i :: 0 <= i < |groups| ==> groups[i] in Map(rows, GroupOf)
    ensures TotalSnps(Summaries(rows, groups)) == GroupSizes(rows, GroupOf, groups)
  {
    if groups != [] {
      TotalSnpsOfSummaries(rows, groups[1..]);
      assert Summaries(rows, groups)[1..] == Summaries(rows, groups[1..]);
    }
  }

  /** Every first-grouping row is counted in exactly one summary row. */
  lemma TotalSnpsCountsRows(rows: seq<SnpTermRow>)
    ensures TotalSnps(Summarize(rows)) == |rows|
  {
    var groups := Unique(Map(rows, GroupOf));
    TotalSnpsOfSummaries(rows, groups);
    assert forall i :: 0 <= i < |rows| ==> GroupOf(rows[i]) in Map(rows, GroupOf);
    GroupSizesPartition(rows, GroupOf, groups);
  }

  /** Rows of one (go_busco, combined_source) group share go_busco, so when the
      (unique_snp_key, go_busco) pairs are distinct their keys are distinct. */
  lemma GroupKeysDistinct(rows: seq<SnpTermRow>, g: (string, string))
    requires Distinct(Map(rows, TermPair))
    ensures Distinct(Map(Where(rows, GroupOf, g), KeyOf))
  {
    var members := Where(rows, GroupOf, g);
    WhereKeepsDistinct(rows, GroupOf, g, TermPair);
    forall i, j | 0 <= i < j < |members|
      ensures Map(members, KeyOf)[i] != Map(members, KeyOf)[j]
    {
      assert Map(members, TermPair)[i] != Map(members, TermPair)[j];
    }
  }

  /** `n_snps` is the number of distinct SNP keys in its group, given the
      first grouping's distinct (unique_snp_key, go_busco) pairs. */
  lemma SnpCountIsDistinctKeys(rows: seq<SnpTermRow>)
    requires Distinct(Map(rows, TermPair))
    ensures forall i :: 0 <= i < |Summarize(rows)| ==>
      Summarize(rows)[i].nSnps ==
        |set k | k in Map(Where(rows, GroupOf, SummaryGroup(Summarize(rows)[i])), KeyOf)|
  {
    var r := Summarize(rows);
    forall i | 0 <= i < |r|
      ensures r[i].nSnps == |set k | k in Map(Where(rows, GroupOf, SummaryGroup(r[i])), KeyOf)|
    {
      GroupKeysDistinct(rows, SummaryGroup(r[i]));
      DistinctCardinality(Map(Where(rows, GroupOf, SummaryGroup(r[i])), KeyOf));
    }
  }
}
