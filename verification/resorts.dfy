/**
 The resort table the dashboard is built on: one immutable record per ski
 resort, the four metrics that are ranked per country, and the ranked row the
 table holds after the rank columns have been attached at load time.
 */
module Resorts {

  /** One row of the resort dataset. Prices and metrics are whole numbers here;
      the amenity flags are the dataset's own strings ("Yes" / "No"). */
  datatype Resort = Resort(
    name: string,
    country: string,
    continent: string,
    price: int,
    highestPoint: int,
    totalSlopes: int,
    snowCannons: int,
    nightSkiing: string,
    summerSkiing: string,
    snowparks: string
  )

  /** The four metrics that get a per-country rank column. */
  datatype Metric = HighestPoint | Price | TotalSlopes | SnowCannons

  /** The value of a metric column of a resort. */
  function Value(r: Resort, m: Metric): int
  {
    match m
    case HighestPoint => r.highestPoint
    case Price => r.price
    case TotalSlopes => r.totalSlopes
    case SnowCannons => r.snowCannons
  }

  /** The four rank columns of a row, each stored as TWICE the rank, so that
      the half ranks produced by averaging ties (2.5, say) stay integers. */
  datatype Ranks = Ranks(elevation: nat, price: nat, slope: nat, cannon: nat)

  /** The doubled rank column that belongs to a metric. */
  function TwiceRankOf(k: Ranks, m: Metric): nat
  {
    match m
    case HighestPoint => k.elevation
    case Price => k.price
    case TotalSlopes => k.slope
    case SnowCannons => k.cannon
  }

  /** A row of the loaded table: the record plus its rank columns. */
  datatype Row = Row(resort: Resort, ranks: Ranks)

  /** No two rows of the table carry the same resort name. */
  predicate UniqueNames(t: seq<Row>)
  {
    forall i, j :: 0 <= i < |t| && 0 <= j < |t| && t[i].resort.name == t[j].resort.name ==> i == j
  }
}
