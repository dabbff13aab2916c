/** The summary table under the chart (`renderTable`): one row per school
    year, the label and the value as a percentage or "N/A". */
module Table {
  import opened Strings
  import opened Seqs
  import opened Records
  import opened Sorting
  import opened YearSeries

  datatype Row = Row(year: string, display: string)

  /** What the value cell shows. `numText` is the text JavaScript prints for
      the number `parseFloat` reads from the raw field. */
  function Display(p: Point, numText: string -> string): (shown: string)
    ensures shown == "N/A" <==> p == Absent
    ensures p != Absent ==> shown == numText(p.text) + "%"
  {
    match p
    case Absent => "N/A"
    case Present(t) =>
      var n := numText(t);
      assert (n + "%")[|n|] == '%' != 'A' == "N/A"[2];
      n + "%"
  }

  /** The table for the parallel `labels` and `data`: row `i` shows the
      entry `i` places from the end. */
  function TableRows(labels: seq<string>, data: seq<Point>, numText: string -> string): (rows: seq<Row>)
    requires |labels| == |data|
  {
    seq(|labels|, i requires 0 <= i < |labels| =>
      Row(labels[|labels| - 1 - i], Display(data[|data| - 1 - i], numText)))
  }

  /** `renderTable`: copies and reverses both sequences, then adds one row
      per reversed label. */
  method RenderTable(labels: seq<string>, data: seq<Point>, numText: string -> string)
    returns (rows: seq<Row>)
    requires |labels| == |data|
    ensures |rows| == |labels|
    ensures forall i :: 0 <= i < |rows| ==>
      rows[i].year == labels[|labels| - 1 - i] && rows[i].display == Display(data[|data| - 1 - i], numText)
    ensures rows == TableRows(labels, data, numText)
  {
    var reversedLabels := Reverse(labels);
    var reversedData := Reverse(data);
    rows := [];
    var index := 0;
    while index < |reversedLabels|
      invariant 0 <= index <= |reversedLabels|
      invariant |rows| == index
      invariant forall k :: 0 <= k < index ==>
        rows[k] == Row(reversedLabels[k], Display(reversedData[k], numText))
    {
      var val := reversedData[index];
      var displayVal := Display(val, numText);
      rows := rows + [Row(reversedLabels[index], displayVal)];
      index := index + 1;
    }
  }

  /** The label column read bottom to top is the label sequence handed in. */
  lemma TableReversesLabels(labels: seq<string>, data: seq<Point>, numText: string -> string)
    requires |labels| == |data|
    ensures var rows := TableRows(labels, data, numText);
      Reverse(seq(|rows|, i requires 0 <= i < |rows| => rows[i].year)) == labels
  {
  }

  /** For a selected district the table lists the year keys in ascending
      order, oldest school year at the top: row `i` shows the `i`-th
      smallest key and that key's value. */
  lemma TableOldestFirst(d: Record, numText: string -> string)
    requires WellFormed(d)
    ensures var s := SelectDistrict(d); var asc := Sort(YearKeys(d));
      var rows := TableRows(s.labels, s.points, numText);
      |rows| == |asc| && StrictlyAscending(asc)
      && forall i :: 0 <= i < |rows| ==>
           rows[i] == Row(FormatYearLabel(asc[i]), Display(ToPoint(Get(d, asc[i])), numText))
  {
    var s := SelectDistrict(d);
    var asc := Sort(YearKeys(d));
    YearKeysDistinct(d);
    SortDistinct(YearKeys(d));
    assert forall i :: 0 <= i < |s.years| ==> s.years[|s.years| - 1 - i] == asc[i];
  }

  /** A strictly descending label sequence gives a table whose labels are
      strictly ascending from top to bottom. */
  lemma TableRowsAscending(labels: seq<string>, data: seq<Point>, numText: string -> string)
    requires |labels| == |data|
    requires forall i, j :: 0 <= i < j < |labels| ==> Less(labels[j], labels[i])
    ensures var rows := TableRows(labels, data, numText);
      forall i, j :: 0 <= i < j < |rows| ==> Less(rows[i].year, rows[j].year)
  {
    var rows := TableRows(labels, data, numText);
    var n := |labels|;
    forall i, j | 0 <= i < j < |rows| ensures Less(rows[i].year, rows[j].year) {
      assert rows[i].year == labels[n - 1 - i];
      assert rows[j].year == labels[n - 1 - j];
    }
  }

  /** When every year key has eight characters the table's labels run
      strictly from the oldest school year to the newest. */
  lemma TableLabelsAscending(d: Record, numText: string -> string)
    requires WellFormed(d)
    requires forall k :: k in Keys(d) && k != NameKey ==> |k| == 8
    ensures var s := SelectDistrict(d); var rows := TableRows(s.labels, s.points, numText);
      forall i, j :: 0 <= i < j < |rows| ==> Less(rows[i].year, rows[j].year)
  {
    var s := SelectDistrict(d);
    ChartLabelsDescending(d);
    TableRowsAscending(s.labels, s.points, numText);
  }

  /** Row `i` of a selected district's table shows the label of the key
      `i` places from the end of the chart's years. */
  lemma TableShowsReversedYears(d: Record, numText: string -> string)
    ensures var s := SelectDistrict(d); var keys := Reverse(s.years);
      var rows := TableRows(s.labels, s.points, numText);
      |rows| == |keys| && forall i :: 0 <= i < |rows| ==> rows[i].year == FormatYearLabel(keys[i])
  {
    var s := SelectDistrict(d);
    var keys := Reverse(s.years);
    var n := |s.years|;
    var rows := TableRows(s.labels, s.points, numText);
    forall i | 0 <= i < |rows| ensures rows[i].year == FormatYearLabel(keys[i]) {
      assert rows[i].year == s.labels[n - 1 - i];
      assert keys[i] == s.years[n - 1 - i];
    }
  }

  /** When every year key is eight decimal digits, the keys the table shows
      from top to bottom spell strictly increasing numbers: row `i` shows
      the label of key `i` of `keys`, and the oldest school year comes
      first. */
  lemma TableYearsOldestFirst(d: Record, numText: string -> string)
    requires WellFormed(d)
    requires forall k :: k in Keys(d) && k != NameKey ==> |k| == 8 && AllDigits(k)
    ensures var s := SelectDistrict(d); var keys := Reverse(s.years);
      var rows := TableRows(s.labels, s.points, numText);
      |rows| == |keys|
      && (forall i :: 0 <= i < |rows| ==> rows[i].year == FormatYearLabel(keys[i]))
      && IncreasingValues(keys)
  {
    TableShowsReversedYears(d, numText);
    ChartYearsNewestFirst(d);
    ReverseIncreasing(SelectDistrict(d).years);
  }

  /** Reversing digit strings whose numbers decrease gives digit strings
      whose numbers increase. */
  lemma ReverseIncreasing(ys: seq<string>)
    requires DecreasingValues(ys)
    ensures IncreasingValues(Reverse(ys))
  {
    var keys := Reverse(ys);
    var n := |ys|;
    forall i, j | 0 <= i < j < |keys|
      ensures AllDigits(keys[i]) && AllDigits(keys[j]) && DigitsValue(keys[i]) < DigitsValue(keys[j])
    {
      assert keys[i] == ys[n - 1 - i] && keys[j] == ys[n - 1 - j];
    }
  }
}

/** A worked selection: one district with two school years, the later one
    not available. */
module TableExample {
  import opened Strings
  import opened Records
  import opened Sorting
  import opened YearSeries
  import opened Table

  const Lincoln := Record([Entry("clean_name", Text("Lincoln Unified")),
                           Entry("20192020", Text("12.5")),
                           Entry("20202021", Text("NA"))])

  lemma LincolnLabels()
    ensures FormatYearLabel("20202021") == "2020-2021"
    ensures FormatYearLabel("20192020") == "2019-2020"
  {
    assert "20202021"[..4] == "2020" && "20202021"[4..] == "2021";
    assert "20192020"[..4] == "2019" && "20192020"[4..] == "2020";
  }

  lemma LincolnYearKeys()
    ensures YearKeys(Lincoln) == ["20192020", "20202021"]
  {
    assert Keys(Lincoln) == ["clean_name", "20192020", "20202021"];
    var ks := Keys(Lincoln);
    assert ks[1..] == ["20192020", "20202021"];
    assert ks[1..][1..] == ["20202021"];
    assert ks[1..][1..][1..] == [];
  }

  lemma LincolnKeysOrdered()
    ensures Less("20192020", "20202021")
  {
    assert "20192020"[1..] == "0192020" && "20202021"[1..] == "0202021";
    assert "0192020"[1..] == "192020" && "0202021"[1..] == "202021";
    assert Less("192020", "202021");
  }

  lemma LincolnYears()
    ensures Years(Lincoln) == ["20202021", "20192020"]
  {
    LincolnYearKeys();
    var asc := ["20192020", "20202021"];
    LincolnKeysOrdered();
    LessAsymmetric(asc[0], asc[1]);
    assert Ascending(asc);
    SortedUnique(Sort(YearKeys(Lincoln)), asc);
  }

  lemma LincolnPoints()
    ensures ToPoint(Get(Lincoln, "20202021")) == Absent
    ensures ToPoint(Get(Lincoln, "20192020")) == Present("12.5")
  {
  }

  /** A record with exactly two years `a`, `b` (in chart order). */
  lemma TwoYears(d: Record, a: string, b: string)
    requires Years(d) == [a, b]
    ensures SelectDistrict(d).labels == [FormatYearLabel(a), FormatYearLabel(b)]
    ensures SelectDistrict(d).points == [ToPoint(Get(d, a)), ToPoint(Get(d, b))]
  {
    var s := SelectDistrict(d);
    assert |s.labels| == 2 && |s.points| == 2;
  }

  lemma LincolnChartLabels()
    ensures SelectDistrict(Lincoln).labels == ["2020-2021", "2019-2020"]
  {
    LincolnYears();
    TwoYears(Lincoln, "20202021", "20192020");
    LincolnLabels();
  }

  lemma LincolnChartPoints()
    ensures SelectDistrict(Lincoln).points == [Absent, Present("12.5")]
  {
    LincolnYears();
    TwoYears(Lincoln, "20202021", "20192020");
    LincolnPoints();
  }

  /** The chart receives the newest school year first. */
  lemma LincolnSeries()
    ensures SelectDistrict(Lincoln)
      == Series(["20202021", "20192020"], ["2020-2021", "2019-2020"], [Absent, Present("12.5")])
  {
    LincolnYears();
    LincolnChartLabels();
    LincolnChartPoints();
  }

  /** The table lists the oldest school year first. */
  lemma LincolnTable(numText: string -> string)
    ensures var s := SelectDistrict(Lincoln);
      TableRows(s.labels, s.points, numText)
      == [Row("2019-2020", numText("12.5") + "%"), Row("2020-2021", "N/A")]
  {
    LincolnSeries();
    var rows := TableRows(["2020-2021", "2019-2020"], [Absent, Present("12.5")], numText);
    assert rows[0] == Row("2019-2020", Display(Present("12.5"), numText));
    assert rows[1] == Row("2020-2021", Display(Absent, numText));
  }
}
