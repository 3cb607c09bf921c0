/** Grouping keys and the records made of them. */
module Records {
  import opened Seqs

  /** Grouping keys are encoded rows, compared byte for byte. */
  datatype Key = Key(encoded: Bytes)

  datatype Record<Acc> = Record(key: Key, acc: Acc)

  /** What the aggregation context supplies: the grouping key of a row, the accumulator of a fresh
      group, and the accumulator after one more row. */
  datatype Aggregate<!Row, !Acc> = Aggregate(
    key: Row -> Key, init: Acc, update: (Acc, Row) -> Acc)
}
