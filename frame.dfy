/**
 * The two-column table the pipeline passes from stage to stage (a pandas
 * DataFrame in the script), with the errors the stages raise.
 */
module Frame {
  import opened Numbers

  const CountryColumn: string := "Country"
  const MillionsColumn: string := "GDP_USD_millions"
  const BillionsColumn: string := "GDP_USD_billions"

  /** The column labels extraction gives the table. */
  const ExtractedColumns: seq<string> := [CountryColumn, MillionsColumn]

  /** Why a stage gave up. */
  datatype Error =
    | TableBodyMissing(found: nat)   // fewer than three table bodies: the index error of `tables[2]`
    | NotNumeric(text: string)       // a value the float conversion rejects

  /** A cell of the value column: text as extracted, or a number once converted. */
  datatype Field = Text(text: string) | Number(amount: Decimal)

  /** One row of the table. */
  datatype Record = Record(country: string, gdp: Field)

  /** A value already converted to billions with two decimal places. */
  predicate InBillions(f: Field) {
    f.Number? && f.amount.scale == 2
  }

  function Zip(country: seq<string>, gdp: seq<Field>): seq<Record>
    requires |country| == |gdp|
  {
    seq(|country|, i requires 0 <= i < |country| => Record(country[i], gdp[i]))
  }

  /**
   * The table: its column labels, then one sequence per column. Stages
   * overwrite a column or relabel the columns in place.
   */
  class Table {
    var columns: seq<string>
    var country: seq<string>
    var gdp: seq<Field>

    ghost predicate Valid()
      reads this
    {
      |country| == |gdp|
    }

    /** The rows, top to bottom. */
    function Rows(): seq<Record>
      reads this
      requires Valid()
    {
      Zip(country, gdp)
    }

    /** An empty table with the given column labels. */
    constructor (labels: seq<string>)
      ensures Valid() && columns == labels && Rows() == []
    {
      columns := labels;
      country := [];
      gdp := [];
    }

    /** Concatenates a one-row table below this one, keeping the labels. */
    method Append(r: Record)
      requires Valid()
      modifies this
      ensures Valid() && columns == old(columns)
      ensures Rows() == old(Rows()) + [r]
    {
      country := country + [r.country];
      gdp := gdp + [r.gdp];
      assert Rows() == old(Rows()) + [r];
    }
  }
}
