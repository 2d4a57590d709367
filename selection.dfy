/**
 * The two selections made over the final table: the top rows by value that
 * the chart shows, and the rows the fixed query returns (value at least 100
 * billion).
 */
module Selection {
  import opened Frame

  /** How many rows the chart shows. */
  const ChartRows: int := 10

  /** The query's lower bound, 100 billion, in hundredths of a billion. */
  const QueryFloor: int := 10000

  /** A row of the final table: the country and its GDP in hundredths of a billion. */
  datatype Entry = Entry(country: string, hundredths: int)

  predicate AllInBillions(rows: seq<Record>) {
    forall i :: 0 <= i < |rows| ==> InBillions(rows[i].gdp)
  }

  /** The final table's rows with their values read as hundredths of a billion. */
  function Entries(rows: seq<Record>): (t: seq<Entry>)
    requires AllInBillions(rows)
  {
    seq(|rows|, i requires 0 <= i < |rows| => Entry(rows[i].country, rows[i].gdp.amount.units))
  }

  /**
   * A converted table's rows read as entries: row `i` gives its country and
   * its two-decimal billions figure in hundredths.
   */
  lemma TableEntries(country: seq<string>, gdp: seq<Field>)
    requires |country| == |gdp|
    requires forall i :: 0 <= i < |gdp| ==> InBillions(gdp[i])
    ensures AllInBillions(Zip(country, gdp))
    ensures |Entries(Zip(country, gdp))| == |gdp|
    ensures forall i :: 0 <= i < |gdp| ==>
              gdp[i].Number? && Entries(Zip(country, gdp))[i] == Entry(country[i], gdp[i].amount.units)
  {
  }

  predicate NonIncreasing(t: seq<Entry>) {
    forall i, j :: 0 <= i < j < |t| ==> t[i].hundredths >= t[j].hundredths
  }

  /** Every entry of `t` is worth at most `v`. */
  predicate AtMost(t: seq<Entry>, v: int) {
    forall i :: 0 <= i < |t| ==> t[i].hundredths <= v
  }

  function Min(a: int, b: int): int { if a <= b then a else b }

  function Max(a: int, b: int): int { if a >= b then a else b }

  // ---------------------------------------------------------------------
  // Sorting by value, descending
  // ---------------------------------------------------------------------

  function Insert(x: Entry, t: seq<Entry>): (r: seq<Entry>)
    ensures multiset(r) == multiset(t) + multiset{x}
  {
    if t == [] then [x]
    else if x.hundredths >= t[0].hundredths then [x] + t
    else
      assert t == [t[0]] + t[1..];
      [t[0]] + Insert(x, t[1..])
  }

  lemma {:induction false} InsertAtMost(x: Entry, t: seq<Entry>, v: int)
    requires AtMost(t, v) && x.hundredths <= v
    ensures AtMost(Insert(x, t), v)
  {
    if t != [] && x.hundredths < t[0].hundredths {
      InsertAtMost(x, t[1..], v);
    }
  }

  lemma PrependKeepsOrder(x: Entry, t: seq<Entry>)
    requires NonIncreasing(t) && AtMost(t, x.hundredths)
    ensures NonIncreasing([x] + t)
  {
    var r := [x] + t;
    forall i, j | 0 <= i < j < |r|
      ensures r[i].hundredths >= r[j].hundredths
    {
      assert r[j] == t[j - 1];
      if i > 0 {
        assert r[i] == t[i - 1];
      }
    }
  }

  lemma {:induction false} InsertKeepsOrder(x: Entry, t: seq<Entry>)
    requires NonIncreasing(t)
    ensures NonIncreasing(Insert(x, t))
  {
    if t == [] {
    } else if x.hundredths >= t[0].hundredths {
      assert AtMost(t, x.hundredths);
      PrependKeepsOrder(x, t);
    } else {
      InsertKeepsOrder(x, t[1..]);
      InsertAtMost(x, t[1..], t[0].hundredths);
      PrependKeepsOrder(t[0], Insert(x, t[1..]));
    }
  }

  /** The entries ordered by value, largest first. */
  function SortDescending(t: seq<Entry>): (r: seq<Entry>)
    ensures multiset(r) == multiset(t)
    ensures NonIncreasing(r)
  {
    if t == [] then []
    else
      assert t == [t[0]] + t[1..];
      var sorted := SortDescending(t[1..]);
      InsertKeepsOrder(t[0], sorted);
      Insert(t[0], sorted)
  }

  // ---------------------------------------------------------------------
  // The chart's rows
  // ---------------------------------------------------------------------

  /**
   * The first `n` entries of the table sorted by value, largest first; a
   * negative `n` keeps all but the last `-n`, as taking the head of a table
   * does.
   */
  function TopN(t: seq<Entry>, n: int): (r: seq<Entry>)
    ensures |r| == if n >= 0 then Min(n, |t|) else Max(0, |t| + n)
    ensures multiset(r) <= multiset(t)
    ensures NonIncreasing(r)
  {
    var s := SortDescending(t);
    var k := if n >= 0 then Min(n, |s|) else Max(0, |s| + n);
    PrefixMultiset(s, k);
    s[..k]
  }

  /** The chart's rows: the ten largest entries, largest first. */
  function Chart(t: seq<Entry>): (r: seq<Entry>)
    ensures |r| == Min(ChartRows, |t|)
    ensures multiset(r) <= multiset(t)
    ensures NonIncreasing(r)
    ensures forall x, y :: x in multiset(t) - multiset(r) && y in r ==> x.hundredths <= y.hundredths
  {
    TopNKeepsLargest(t, ChartRows);
    TopN(t, ChartRows)
  }

  lemma PrefixMultiset(s: seq<Entry>, k: nat)
    requires k <= |s|
    ensures multiset(s) == multiset(s[..k]) + multiset(s[k..])
  {
    assert s == s[..k] + s[k..];
  }

  /** In a descending sequence, nothing after position `k` outweighs anything before it. */
  lemma SortedSplit(s: seq<Entry>, k: nat)
    requires NonIncreasing(s) && k <= |s|
    ensures forall x, y :: x in s[k..] && y in s[..k] ==> x.hundredths <= y.hundredths
  {
    forall x, y | x in s[k..] && y in s[..k]
      ensures x.hundredths <= y.hundredths
    {
      var j :| 0 <= j < |s[k..]| && s[k..][j] == x;
      var i :| 0 <= i < k && s[..k][i] == y;
      assert s[k + j] == x && s[i] == y;
    }
  }

  /** No entry left out of the chart has a larger value than an entry in it. */
  lemma TopNKeepsLargest(t: seq<Entry>, n: int)
    ensures forall x, y :: x in multiset(t) - multiset(TopN(t, n)) && y in TopN(t, n) ==>
              x.hundredths <= y.hundredths
  {
    var s := SortDescending(t);
    var top := TopN(t, n);
    var k := |top|;
    assert top == s[..k];
    PrefixMultiset(s, k);
    assert multiset(t) - multiset(top) == multiset(s[k..]);
    SortedSplit(s, k);
  }

  // ---------------------------------------------------------------------
  // The query's rows
  // ---------------------------------------------------------------------

  /** The entries worth at least 100 billion, in table order. */
  function AtLeast100Billion(t: seq<Entry>): (r: seq<Entry>)
    ensures |r| <= |t|
  {
    if t == [] then []
    else (if t[0].hundredths >= QueryFloor then [t[0]] else []) + AtLeast100Billion(t[1..])
  }

  /** Every entry worth at least 100 billion comes back as often as it occurs, and no other entry does. */
  lemma {:induction false} AtLeast100BillionCounts(t: seq<Entry>, x: Entry)
    ensures multiset(AtLeast100Billion(t))[x] ==
            if x.hundredths >= QueryFloor then multiset(t)[x] else 0
  {
    if t != [] {
      assert t == [t[0]] + t[1..];
      AtLeast100BillionCounts(t[1..], x);
    }
  }

  lemma AtLeast100BillionCons(x: Entry, t: seq<Entry>)
    ensures AtLeast100Billion([x] + t) == (if x.hundredths >= QueryFloor then [x] else []) + AtLeast100Billion(t)
  {
    assert ([x] + t)[1..] == t;
  }

  /** The filter works entry by entry, so the entries it keeps stay in table order. */
  lemma {:induction false} AtLeast100BillionConcat(a: seq<Entry>, b: seq<Entry>)
    ensures AtLeast100Billion(a + b) == AtLeast100Billion(a) + AtLeast100Billion(b)
  {
    if a == [] {
      assert a + b == b;
    } else {
      var head := if a[0].hundredths >= QueryFloor then [a[0]] else [];
      assert a + b == [a[0]] + (a[1..] + b);
      AtLeast100BillionCons(a[0], a[1..] + b);
      AtLeast100BillionConcat(a[1..], b);
      assert AtLeast100Billion(a) == head + AtLeast100Billion(a[1..]);
      assert head + (AtLeast100Billion(a[1..]) + AtLeast100Billion(b))
          == (head + AtLeast100Billion(a[1..])) + AtLeast100Billion(b);
    }
  }

  /** Of 50, 99.99, 100, 100.01 and 500 billion, the query returns the last three. */
  lemma AtLeast100BillionExample(a: string, b: string, c: string, d: string, e: string)
    ensures AtLeast100Billion([Entry(a, 5000), Entry(b, 9999), Entry(c, 10000), Entry(d, 10001), Entry(e, 50000)])
         == [Entry(c, 10000), Entry(d, 10001), Entry(e, 50000)]
  {
    var ea, eb, ec, ed, ee := Entry(a, 5000), Entry(b, 9999), Entry(c, 10000), Entry(d, 10001), Entry(e, 50000);
    AtLeast100BillionCons(ee, []);
    assert [ee] + [] == [ee];
    AtLeast100BillionCons(ed, [ee]);
    AtLeast100BillionCons(ec, [ed, ee]);
    assert [ec] + [ed, ee] == [ec, ed, ee];
    AtLeast100BillionCons(eb, [ec, ed, ee]);
    assert [eb] + [ec, ed, ee] == [eb, ec, ed, ee];
    AtLeast100BillionCons(ea, [eb, ec, ed, ee]);
    assert [ea] + [eb, ec, ed, ee] == [ea, eb, ec, ed, ee];
  }
}
