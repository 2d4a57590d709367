/**
 * The transformation stage: the value column is overwritten in place three
 * times (separators removed, converted to numbers, rescaled from millions to
 * billions rounded to two decimals) and then relabelled.
 */
module Transformation {
  import opened Wrappers
  import opened Numbers
  import opened Frame

  predicate AllText(col: seq<Field>) {
    forall i :: 0 <= i < |col| ==> col[i].Text?
  }

  predicate AllNumbers(col: seq<Field>) {
    forall i :: 0 <= i < |col| ==> col[i].Number?
  }

  // ---------------------------------------------------------------------
  // What one estimate becomes
  // ---------------------------------------------------------------------

  /**
   * The billions figure one raw estimate (in millions) normalises to, or the
   * error the conversion raises on its separator-free text.
   */
  function Normalized(text: string): (r: Result<Decimal, Error>)
    ensures r.Success? ==> r.value.scale == 2
    ensures r.Failure? ==> r.error.NotNumeric? && Separator !in r.error.text
  {
    var stripped := StripSeparators(text);
    match ParseDecimal(stripped)
    case None => Failure(NotNumeric(stripped))
    case Some(d) => Success(ToBillions(d))
  }

  /** An estimate written with thousands separators normalises to its value divided by 1000. */
  lemma NormalizedGrouped(n: nat)
    ensures Normalized(Grouped(n)) == Success(ToBillions(Decimal(n, 0)))
    ensures Normalized(Grouped(n)).value.units >= 0
  {
    StripGrouped(n);
    ParseDigits(n);
  }

  /** "1,234" million is 1.23 billion. */
  lemma NormalizedExample()
    ensures Normalized("1,234") == Success(Decimal(123, 2))
  {
    assert Grouped(1234) == "1,234" by {
      assert Pad3(234) == "234";
      assert Grouped(1) == "1";
    }
    NormalizedGrouped(1234);
    assert RoundDiv(1234, 10) == 123;
  }

  /** An estimate cell holding a bare hyphen is not a number, and the conversion raises on it. */
  lemma NormalizedHyphen()
    ensures Normalized("-") == Failure(NotNumeric("-"))
  {
    assert StripSeparators("-") == "-" by {
      assert "-"[1..] == [];
    }
  }

  /** Text without a minus sign never normalises to a negative figure. */
  lemma NormalizedNonNegative(text: string)
    requires '-' !in text
    requires Normalized(text).Success?
    ensures Normalized(text).value.units >= 0
  {
    var stripped := StripSeparators(text);
    StripSeparatorsCounts(text);
    assert multiset(stripped)['-'] == multiset(text)['-'] == 0;
    assert stripped[0] != '-' by {
      assert stripped[0] in multiset(stripped);
    }
  }

  // ---------------------------------------------------------------------
  // The three column rewrites and the relabelling
  // ---------------------------------------------------------------------

  /** The value column with every separator removed (the string replace). */
  function StripColumn(col: seq<Field>): seq<Field>
    requires AllText(col)
  {
    seq(|col|, i requires 0 <= i < |col| => Text(StripSeparators(col[i].text)))
  }

  /** Whether the text in row `i` is the first that is not a number, with error `e`. */
  predicate FirstUnparsed(col: seq<Field>, i: int, e: Error)
    requires AllText(col)
  {
    && 0 <= i < |col|
    && ParseDecimal(col[i].text).None?
    && e == NotNumeric(col[i].text)
    && forall j :: 0 <= j < i ==> ParseDecimal(col[j].text).Some?
  }

  /**
   * The value column as numbers (the float conversion): row `i` holds the
   * number its text reads as, and the conversion fails on the first text
   * that is not one.
   */
  function ParseColumn(col: seq<Field>): (r: Result<seq<Field>, Error>)
    requires AllText(col)
    ensures r.Success? <==> forall i :: 0 <= i < |col| ==> ParseDecimal(col[i].text).Some?
    ensures r.Success? ==> |r.value| == |col| && AllNumbers(r.value)
    ensures r.Success? ==> forall i :: 0 <= i < |col| ==> r.value[i] == Number(ParseDecimal(col[i].text).value)
    ensures r.Failure? ==> exists i :: FirstUnparsed(col, i, r.error)
  {
    if col == [] then Success([])
    else
      match ParseDecimal(col[0].text)
      case None =>
        assert FirstUnparsed(col, 0, NotNumeric(col[0].text));
        Failure(NotNumeric(col[0].text))
      case Some(d) =>
        match ParseColumn(col[1..])
        case Failure(e) =>
          var k :| FirstUnparsed(col[1..], k, e);
          UnparsedLater(col, k, e);
          Failure(e)
        case Success(tail) =>
          ParsedCons(col, col[1..], d, tail);
          Success([Number(d)] + tail)
  }

  lemma UnparsedLater(col: seq<Field>, k: int, e: Error)
    requires AllText(col) && |col| > 0 && ParseDecimal(col[0].text).Some?
    requires FirstUnparsed(col[1..], k, e)
    ensures FirstUnparsed(col, k + 1, e)
  {
    var rest := col[1..];
    assert col[k + 1] == rest[k];
    forall j | 0 <= j < k + 1
      ensures ParseDecimal(col[j].text).Some?
    {
      if j > 0 {
        assert col[j] == rest[j - 1];
      }
    }
  }

  lemma ParsedCons(col: seq<Field>, rest: seq<Field>, d: Decimal, tail: seq<Field>)
    requires AllText(col) && |col| > 0 && rest == col[1..] && ParseDecimal(col[0].text) == Some(d)
    requires |tail| == |rest|
    requires forall i :: 0 <= i < |rest| ==>
               ParseDecimal(rest[i].text).Some? && tail[i] == Number(ParseDecimal(rest[i].text).value)
    ensures forall i :: 0 <= i < |col| ==>
              ParseDecimal(col[i].text).Some? && ([Number(d)] + tail)[i] == Number(ParseDecimal(col[i].text).value)
  {
    forall i | 0 < i < |col|
      ensures ParseDecimal(col[i].text).Some? && ([Number(d)] + tail)[i] == Number(ParseDecimal(col[i].text).value)
    {
      ParsedAt(col, rest, d, tail, i);
    }
  }

  lemma ParsedAt(col: seq<Field>, rest: seq<Field>, d: Decimal, tail: seq<Field>, i: int)
    requires AllText(col) && 0 < i < |col| && rest == col[1..] && |tail| == |rest|
    requires ParseDecimal(rest[i - 1].text).Some? && tail[i - 1] == Number(ParseDecimal(rest[i - 1].text).value)
    ensures ParseDecimal(col[i].text).Some? && ([Number(d)] + tail)[i] == Number(ParseDecimal(col[i].text).value)
  {
    assert col[i] == rest[i - 1];
  }

  /** The value column divided by 1000 and rounded to two decimals. */
  function ScaleColumn(col: seq<Field>): seq<Field>
    requires AllNumbers(col)
  {
    seq(|col|, i requires 0 <= i < |col| => Number(ToBillions(col[i].amount)))
  }

  /** The column labels with the millions label renamed to the billions label. */
  function Rename(columns: seq<string>): seq<string>
  {
    seq(|columns|, i requires 0 <= i < |columns| =>
      if columns[i] == MillionsColumn then BillionsColumn else columns[i])
  }

  lemma RenameExtracted()
    ensures Rename(ExtractedColumns) == [CountryColumn, BillionsColumn]
  {
  }

  /** Whether the estimate in row `i` is the first that does not normalise, with error `e`. */
  predicate FirstFailure(col: seq<Field>, i: int, e: Error)
    requires AllText(col)
  {
    && 0 <= i < |col|
    && Normalized(col[i].text) == Failure(e)
    && forall j :: 0 <= j < i ==> Normalized(col[j].text).Success?
  }

  /**
   * The column rewrites, taken together, normalise each estimate on its own:
   * they succeed exactly when every estimate normalises, then row `i` holds
   * the normalised estimate of row `i`; otherwise they report the first
   * estimate that does not.
   */
  lemma ColumnRewrites(col: seq<Field>)
    requires AllText(col)
    ensures ParseColumn(StripColumn(col)).Success? <==>
            forall i :: 0 <= i < |col| ==> Normalized(col[i].text).Success?
    ensures ParseColumn(StripColumn(col)).Success? ==>
            var scaled := ScaleColumn(ParseColumn(StripColumn(col)).value);
            |scaled| == |col| &&
            forall i :: 0 <= i < |col| ==> scaled[i] == Number(Normalized(col[i].text).value) && InBillions(scaled[i])
    ensures ParseColumn(StripColumn(col)).Failure? ==>
            exists i :: FirstFailure(col, i, ParseColumn(StripColumn(col)).error)
  {
    var stripped := StripColumn(col);
    var parsed := ParseColumn(stripped);
    forall i | 0 <= i < |col|
      ensures ParseDecimal(stripped[i].text).Some? <==> Normalized(col[i].text).Success?
    {
      assert stripped[i].text == StripSeparators(col[i].text);
    }
    if parsed.Success? {
      var scaled := ScaleColumn(parsed.value);
      forall i | 0 <= i < |col|
        ensures scaled[i] == Number(Normalized(col[i].text).value) && InBillions(scaled[i])
      {
        assert stripped[i].text == StripSeparators(col[i].text);
      }
    } else {
      var i :| FirstUnparsed(stripped, i, parsed.error);
      assert FirstFailure(col, i, parsed.error);
    }
  }

  /**
   * Normalises the extracted table in place. On success every row keeps its
   * country and position and holds its normalised estimate, and the value
   * column is relabelled to billions. On failure the error names the first
   * estimate that is not a number; by then the separators have already been
   * stripped from the column and the labels are unchanged.
   */
  method Transform(data: Table) returns (outcome: Outcome<Error>)
    requires data.Valid() && data.columns == ExtractedColumns && AllText(data.gdp)
    modifies data
    ensures data.Valid() && data.country == old(data.country) && |data.gdp| == |old(data.gdp)|
    ensures outcome.Pass? <==> forall i :: 0 <= i < |old(data.gdp)| ==> Normalized(old(data.gdp)[i].text).Success?
    ensures outcome.Pass? ==> data.columns == [CountryColumn, BillionsColumn]
    ensures outcome.Pass? ==>
            forall i :: 0 <= i < |data.gdp| ==> data.gdp[i] == Number(Normalized(old(data.gdp)[i].text).value)
    ensures outcome.Pass? ==> forall i :: 0 <= i < |data.gdp| ==> InBillions(data.gdp[i])
    ensures outcome.Fail? ==> data.columns == ExtractedColumns && data.gdp == StripColumn(old(data.gdp))
    ensures outcome.Fail? ==> exists i :: FirstFailure(old(data.gdp), i, outcome.error)
  {
    ghost var raw := data.gdp;
    ColumnRewrites(raw);
    data.gdp := StripColumn(data.gdp);
    var parsed := ParseColumn(data.gdp);
    if parsed.Failure? {
      return Fail(parsed.error);
    }
    data.gdp := parsed.value;
    data.gdp := ScaleColumn(data.gdp);
    data.columns := Rename(data.columns);
    RenameExtracted();
    assert data.gdp == ScaleColumn(ParseColumn(StripColumn(raw)).value);
    return Pass;
  }
}
