/**
 * The extraction stage: choose the third table body of the parsed page and
 * keep, in document order, the rows that name a linked country and carry an
 * estimate.
 */
module Extraction {
  import opened Wrappers
  import opened Frame

  /** The text the page shows in place of a missing estimate (an em dash). */
  const MissingMarker: string := "\U{2014}"

  /** The index of the table body that holds the estimates. */
  const EstimateBody: nat := 2

  /**
   * A data cell of the parsed page: whether it contains a hyperlink, and its
   * text with surrounding whitespace stripped.
   */
  datatype Cell = Cell(hasLink: bool, text: string)

  /** The data cells of a table row, left to right. */
  type Row = seq<Cell>

  /** The rows of a table body, top to bottom. */
  type TableBody = seq<Row>

  /** Every table body of the page, in document order. */
  type Document = seq<TableBody>

  /** At least three cells, a linked first cell, and an estimate other than the marker. */
  predicate Qualifies(row: Row) {
    |row| >= 3 && row[0].hasLink && row[2].text != MissingMarker
  }

  /** The country (first cell) and the raw estimate (third cell) of a row. */
  function RecordOf(row: Row): Record
    requires |row| >= 3
  {
    Record(row[0].text, Text(row[2].text))
  }

  /** The records of the qualifying rows, in order. */
  function Selected(rows: seq<Row>): (r: seq<Record>)
    ensures |r| <= |rows|
    ensures forall k :: 0 <= k < |r| ==> r[k].gdp.Text? && r[k].gdp.text != MissingMarker
  {
    if rows == [] then []
    else (if Qualifies(rows[0]) then [RecordOf(rows[0])] else []) + Selected(rows[1..])
  }

  /** Selection works row by row: consecutive runs of rows select consecutive runs of records. */
  lemma {:induction false} SelectedConcat(a: seq<Row>, b: seq<Row>)
    ensures Selected(a + b) == Selected(a) + Selected(b)
  {
    if a == [] {
      assert a + b == b;
    } else {
      assert (a + b)[1..] == a[1..] + b;
      SelectedConcat(a[1..], b);
    }
  }

  /** A record is selected exactly when some qualifying row produces it. */
  lemma {:induction false} SelectedMembership(rows: seq<Row>, rec: Record)
    ensures rec in Selected(rows) <==>
            exists i :: 0 <= i < |rows| && Qualifies(rows[i]) && RecordOf(rows[i]) == rec
  {
    if rows != [] {
      SelectedMembership(rows[1..], rec);
      if rec in Selected(rows[1..]) {
        var i :| 0 <= i < |rows[1..]| && Qualifies(rows[1..][i]) && RecordOf(rows[1..][i]) == rec;
        assert rows[i + 1] == rows[1..][i];
      }
      if exists i :: 0 <= i < |rows| && Qualifies(rows[i]) && RecordOf(rows[i]) == rec {
        var i :| 0 <= i < |rows| && Qualifies(rows[i]) && RecordOf(rows[i]) == rec;
        if i > 0 {
          assert rows[1..][i - 1] == rows[i];
        }
      }
    }
  }

  /** Of a linked row with an estimate and a linked row with the marker, only the first is kept. */
  lemma SelectedExample()
    ensures Selected([[Cell(true, "A"), Cell(false, "x"), Cell(false, "1,234")],
                      [Cell(true, "B"), Cell(false, "x"), Cell(false, MissingMarker)]])
         == [Record("A", Text("1,234"))]
  {
    var a := [Cell(true, "A"), Cell(false, "x"), Cell(false, "1,234")];
    var b := [Cell(true, "B"), Cell(false, "x"), Cell(false, MissingMarker)];
    assert "1,234" != MissingMarker;
    assert [a, b][1..] == [b];
    assert [b][1..] == [];
  }

  /** The positions of the qualifying rows. */
  function QualifyingPositions(rows: seq<Row>): set<nat>
  {
    set i: nat | i < |rows| && Qualifies(rows[i])
  }

  /** One record per qualifying row: nothing is merged or dropped. */
  lemma {:induction false} SelectedLength(rows: seq<Row>)
    ensures |Selected(rows)| == |QualifyingPositions(rows)|
  {
    if rows == [] {
      assert QualifyingPositions(rows) == {};
    } else {
      var init, last := rows[..|rows| - 1], rows[|rows| - 1];
      assert rows == init + [last];
      SelectedLength(init);
      SelectedConcat(init, [last]);
      var before := QualifyingPositions(init);
      var here: set<nat> := if Qualifies(last) then {|init|} else {};
      forall i: nat | i in QualifyingPositions(rows)
        ensures i in before + here
      {
        if i < |init| {
          assert rows[i] == init[i];
        }
      }
      forall i: nat | i in before
        ensures i in QualifyingPositions(rows)
      {
        assert rows[i] == init[i];
      }
      assert QualifyingPositions(rows) == before + here;
      assert |init| !in before;
    }
  }

  /**
   * Reads the estimates table of the page. Fails, as indexing the list of
   * table bodies does, when the page has fewer than three; otherwise returns a
   * fresh table labelled Country / GDP_USD_millions with one row per
   * qualifying row of the third table body, in document order.
   */
  method Extract(doc: Document) returns (r: Result<Table, Error>)
    ensures r.Failure? <==> |doc| <= EstimateBody
    ensures r.Failure? ==> r.error == TableBodyMissing(|doc|)
    ensures r.Success? ==> fresh(r.value) && r.value.Valid()
    ensures r.Success? ==> r.value.columns == ExtractedColumns
    ensures r.Success? ==> r.value.Rows() == Selected(doc[EstimateBody])
  {
    if |doc| <= EstimateBody {
      return Failure(TableBodyMissing(|doc|));
    }
    var rows := doc[EstimateBody];
    var df := new Table(ExtractedColumns);
    for i := 0 to |rows|
      invariant df.Valid() && df.columns == ExtractedColumns
      invariant df.Rows() == Selected(rows[..i])
    {
      var cols := rows[i];
      SelectedConcat(rows[..i], [cols]);
      assert rows[..i + 1] == rows[..i] + [cols];
      if |cols| >= 3 {
        var estimateCell := cols[2];
        var countryCell := cols[0];
        if countryCell.hasLink && estimateCell.text != MissingMarker {
          var country := countryCell.text;
          var estimate := estimateCell.text;
          df.Append(Record(country, Text(estimate)));
        }
      }
    }
    assert rows[..|rows|] == rows;
    return Success(df);
  }
}
