/** The final ordering: `sort_values(['sum_AF_Gap', 'n_snps'], ascending=[False, False])`. */
module Ranking {
  import opened Seqs
  import opened Records
  import opened Aggregate

  /** `a` may come before `b`: a larger sum, or an equal sum and at least as many SNPs. */
  predicate RanksBefore(a: SummaryRow, b: SummaryRow)
  {
    a.sumAfGap > b.sumAfGap || (a.sumAfGap == b.sumAfGap && a.nSnps >= b.nSnps)
  }

  /** Every row may come before every later row. */
  predicate Ranked(s: seq<SummaryRow>)
  {
    forall i, j :: 0 <= i < j < |s| ==> RanksBefore(s[i], s[j])
  }

  lemma InsertFront(x: SummaryRow, s: seq<SummaryRow>)
    requires Ranked(s)
    requires s == [] || RanksBefore(x, s[0])
    ensures Ranked([x] + s)
  {
    forall i, j | 0 <= i < j < |[x] + s|
      ensures RanksBefore(([x] + s)[i], ([x] + s)[j])
    {
      assert ([x] + s)[j] == s[j - 1];
      if i > 0 {
        assert ([x] + s)[i] == s[i - 1];
      }
    }
  }

  lemma InsertBehind(y: SummaryRow, x: SummaryRow, r: seq<SummaryRow>, rest: seq<SummaryRow>)
    requires !RanksBefore(x, y)
    requires Ranked(r) && Ranked([y] + rest)
    requires multiset(r) == multiset(rest) + multiset{x}
    ensures Ranked([y] + r)
  {
    forall i, j | 0 <= i < j < |[y] + r|
      ensures RanksBefore(([y] + r)[i], ([y] + r)[j])
    {
      var z := r[j - 1];
      assert ([y] + r)[j] == z;
      if i == 0 {
        assert ([y] + r)[0] == y;
        assert z in multiset(r);
        if z != x {
          assert z in multiset(rest);
          var k :| 0 <= k < |rest| && rest[k] == z;
          assert ([y] + rest)[0] == y && ([y] + rest)[k + 1] == z;
        }
      } else {
        assert ([y] + r)[i] == r[i - 1];
      }
    }
  }

  /** One step of insertion sort: `x` goes before the first row it may precede.
      It may precede a row it ties with, so it lands before such rows, and
      `Rank`, which inserts each row into the ranked rows after it, keeps tied
      rows in input order. */
  function Insert(x: SummaryRow, s: seq<SummaryRow>): (r: seq<SummaryRow>)
    requires Ranked(s)
    ensures Ranked(r)
    ensures multiset(r) == multiset(s) + multiset{x}
  {
    if s == [] || RanksBefore(x, s[0]) then
      InsertFront(x, s);
      [x] + s
    else
      var r := Insert(x, s[1..]);
      assert s == [s[0]] + s[1..];
      InsertBehind(s[0], x, r, s[1..]);
      [s[0]] + r
  }

  /** The summary rows rearranged by sum, then count, both descending. */
  function Rank(s: seq<SummaryRow>): (r: seq<SummaryRow>)
    ensures Ranked(r)
    ensures multiset(r) == multiset(s)
  {
    if s == [] then []
    else
      assert s == [s[0]] + s[1..];
      Insert(s[0], Rank(s[1..]))
  }

  /** The ordering stated on neighbours, as the sort promises it. */
  lemma RankedNeighbours(s: seq<SummaryRow>)
    requires Ranked(s)
    ensures forall i :: 0 <= i < |s| - 1 ==>
      s[i].sumAfGap > s[i + 1].sumAfGap ||
      (s[i].sumAfGap == s[i + 1].sumAfGap && s[i].nSnps >= s[i + 1].nSnps)
  {
    forall i | 0 <= i < |s| - 1
      ensures RanksBefore(s[i], s[i + 1])
    {
    }
  }

  /** Sorting keeps the (go_busco, combined_source) pairs and keeps them distinct. */
  lemma RankKeepsGroups(s: seq<SummaryRow>)
    requires Distinct(Map(s, SummaryGroup))
    ensures Distinct(Map(Rank(s), SummaryGroup))
    ensures forall g :: g in Map(Rank(s), SummaryGroup) <==> g in Map(s, SummaryGroup)
  {
    PermutationKeys(s, Rank(s), SummaryGroup);
  }

  lemma {:induction false} InsertKeepsTotal(x: SummaryRow, s: seq<SummaryRow>)
    requires Ranked(s)
    ensures TotalSnps(Insert(x, s)) == x.nSnps + TotalSnps(s)
  {
    if s != [] && !RanksBefore(x, s[0]) {
      InsertKeepsTotal(x, s[1..]);
    }
  }

  /** Sorting neither adds nor loses SNP counts. */
  lemma {:induction false} RankKeepsTotal(s: seq<SummaryRow>)
    ensures TotalSnps(Rank(s)) == TotalSnps(s)
  {
    if s != [] {
      RankKeepsTotal(s[1..]);
      InsertKeepsTotal(s[0], Rank(s[1..]));
    }
  }
}
