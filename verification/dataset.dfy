/** The columnar MRR dataset, the selection (active drill-down filter) and
    the fixed vocabulary of the MRR waterfall. */
module Dataset {
  import opened Seqs

  /** One entry of a column: the source's columns hold strings or numbers.
      Money amounts are exact integers (for instance cents). */
  datatype Cell = S(s: string) | N(n: int)

  /** Field name to column; record `i` is the `i`-th entry of every column. */
  type Data = map<string, seq<Cell>>

  /** The active filter: records whose `bucketName` field holds one of
      `bucketValues`; breakdowns are grouped by the same field. */
  datatype Selection = Selection(bucketName: string, bucketValues: seq<string>)

  datatype Option<T> = None | Some(value: T)

  /** An evaluation that either returns a value or throws the `TypeError`
      JavaScript raises when indexing an absent column (`undefined[i]`). */
  datatype Result<T> = Ok(value: T) | TypeError

  const MonthField: string := "month"
  const BucketField: string := "bucket"
  const ValueField: string := "value"

  const EndingMrr: string := "6. Ending MRR"

  /** The six waterfall categories, in the order the grid shows them. */
  const MrrLabels: seq<string> := [
    "1. New MRR",
    "2. Expansion MRR",
    "3. Reactivation MRR",
    "4. Downgrade MRR",
    "5. Churn MRR",
    EndingMrr
  ]

  /** The dataset shape the aggregations read: `month`, `bucket` and `value`
      columns exist, every column has one entry per record, months are
      strings and values are numbers. */
  predicate WellFormed(ds: Data) {
    && MonthField in ds && BucketField in ds && ValueField in ds
    && (forall f :: f in ds ==> |ds[f]| == |ds[MonthField]|)
    && (forall i :: 0 <= i < |ds[MonthField]| ==> ds[MonthField][i].S?)
    && (forall i :: 0 <= i < |ds[ValueField]| ==> ds[ValueField][i].N?)
  }

  /** Number of records: the length of the `month` column, over which the
      source's `data.month.forEach` loops run. */
  function Size(ds: Data): nat
    requires MonthField in ds
  {
    |ds[MonthField]|
  }

  function MonthAt(ds: Data, i: nat): string
    requires WellFormed(ds) && i < Size(ds)
  {
    ds[MonthField][i].s
  }

  function BucketAt(ds: Data, i: nat): Cell
    requires WellFormed(ds) && i < Size(ds)
  {
    ds[BucketField][i]
  }

  function ValueAt(ds: Data, i: nat): int
    requires WellFormed(ds) && i < Size(ds)
  {
    ds[ValueField][i].n
  }

  /** `data[field][i]` for a field that exists; `None` stands for `undefined`. */
  function FieldAt(ds: Data, field: string, i: nat): Option<Cell>
    requires field in ds
  {
    if i < |ds[field]| then Some(ds[field][i]) else None
  }

  /** The `month` column as strings. */
  function MonthColumn(ds: Data): (ms: seq<string>)
    requires WellFormed(ds)
    ensures |ms| == Size(ds)
    ensures forall i :: 0 <= i < |ms| ==> ms[i] == MonthAt(ds, i)
  {
    seq(Size(ds), i requires 0 <= i < Size(ds) => MonthAt(ds, i))
  }
}
