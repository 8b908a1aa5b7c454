/** The rows that flow through the pipeline, one datatype per table shape. */
module Records {

  /** A row of an AF-gap table: the CHROM, POS and AF_Gap columns. */
  datatype AfGapRow = AfGapRow(chrom: string, pos: nat, afGap: real)

  /** A row of an intersection table: its eight fixed columns. */
  datatype IntersectRow = IntersectRow(
    snpChr: string, snpStart: int, snpEnd: int, snpId: string,
    geneChr: string, geneStart: int, geneEnd: int, goBusco: string)

  /** An intersection row with its `initial_source` label and `unique_snp_key`. */
  datatype LabeledRow = LabeledRow(row: IntersectRow, source: string, key: string)

  /** A labelled row after the join, with AF_Gap filled in. */
  datatype JoinedRow = JoinedRow(row: LabeledRow, afGap: real)

  /** One row per (unique_snp_key, go_busco) pair after the first grouping. */
  datatype SnpTermRow = SnpTermRow(key: string, goBusco: string, combinedSource: string, afGap: real)

  /** One row per (go_busco, combined_source) pair: the written summary. */
  datatype SummaryRow = SummaryRow(
    goBusco: string, combinedSource: string, nSnps: nat,
    sumAfGap: real, meanAfGap: real, maxAfGap: real)

  /** Which of the two AF-gap inputs could not be read. */
  datatype AfGapInput = HighFstAfGaps | PrivateAfGaps

  /** The conditions under which the script stops without writing a summary. */
  datatype PipelineError =
    | AfGapFileUnavailable(input: AfGapInput)
    | NoIntersectInputs
}
