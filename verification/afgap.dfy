/** The combined AF-gap table: the high-Fst and the private AF-gap tables,
    concatenated in that order and de-duplicated on `unique_snp_key`, the first
    occurrence winning. */
module AfGapTable {
  import opened Wrappers
  import opened Seqs
  import opened Keys
  import opened Records

  /** The `unique_snp_key` of an AF-gap row. */
  function RowKey(r: AfGapRow): string
  {
    AfKey(r.chrom, r.pos)
  }

  predicate UniqueKeys(t: seq<AfGapRow>) {
    Distinct(Map(t, RowKey))
  }

  /** `pd.concat([high_fst, private]).drop_duplicates(subset=['unique_snp_key'])`:
      looking a key up in the result finds exactly the row that looking it up in
      the concatenation finds, and no key occurs twice. */
  function CombineAfGap(highFst: seq<AfGapRow>, privateRows: seq<AfGapRow>): (t: seq<AfGapRow>)
    ensures UniqueKeys(t)
    ensures forall k :: First(t, RowKey, k) == First(highFst + privateRows, RowKey, k)
    ensures forall x :: x in t ==> x in highFst + privateRows
  {
    DedupFrom(highFst + privateRows, RowKey, {})
  }

  /** The combined table holds a row for a key exactly when either input does,
      and the row it holds is the high-Fst one whenever the high-Fst table has
      the key, otherwise the first private one. */
  lemma CombineAfGapKeys(highFst: seq<AfGapRow>, privateRows: seq<AfGapRow>, k: string)
    ensures k in Map(CombineAfGap(highFst, privateRows), RowKey) <==>
      k in Map(highFst, RowKey) || k in Map(privateRows, RowKey)
    ensures First(CombineAfGap(highFst, privateRows), RowKey, k) ==
      if First(highFst, RowKey, k).Some? then First(highFst, RowKey, k) else First(privateRows, RowKey, k)
  {
    var t := CombineAfGap(highFst, privateRows);
    FirstSpec(t, RowKey, k);
    FirstSpec(highFst + privateRows, RowKey, k);
    MapAppend(highFst, privateRows, RowKey);
    FirstAppend(highFst, privateRows, RowKey, k);
  }
}
