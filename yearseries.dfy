/** The series built when a district is selected (`selectDistrict`): the
    record's year keys, their display labels and their values. */
module YearSeries {
  import opened Strings
  import opened Seqs
  import opened Records
  import opened Sorting

  /** The label shown for a year key: an eight-character key "AAAABBBB"
      becomes "AAAA-BBBB"; any other key is shown as it is. */
  function FormatYearLabel(key: string): (shown: string)
    ensures |key| == 8 ==> |shown| == 9 && shown[4] == '-' && shown[..4] + shown[5..] == key
    ensures |key| != 8 ==> shown == key
  {
    if |key| == 8 then key[..4] + "-" + key[4..] else key
  }

  /** On eight-character keys the labels are ordered as the keys are, so
      two different keys never share a label. */
  lemma FormatYearLabelOrder(a: string, b: string)
    requires |a| == 8 && |b| == 8
    ensures Less(a, b) <==> Less(FormatYearLabel(a), FormatYearLabel(b))
  {
    var a1, a2, b1, b2 := a[..4], a[4..], b[..4], b[4..];
    assert a == a1 + a2 && b == b1 + b2;
    assert FormatYearLabel(a) == a1 + ("-" + a2);
    assert FormatYearLabel(b) == b1 + ("-" + b2);
    LessAppend(a1, b1, a2, b2);
    LessAppend(a1, b1, "-" + a2, "-" + b2);
    LessAppend("-", "-", a2, b2);
    LessIrreflexive("-");
  }

  /** A year key such as "20192020" is written in decimal digits only. */
  predicate AllDigits(s: string)
  {
    forall i :: 0 <= i < |s| ==> '0' <= s[i] <= '9'
  }

  function Pow10(n: nat): nat
  {
    if n == 0 then 1 else 10 * Pow10(n - 1)
  }

  /** The number a digit string spells, most significant digit first. */
  function DigitsValue(s: string): nat
    requires AllDigits(s)
  {
    if s == [] then 0
    else
      var d: nat := s[0] as int - '0' as int;
      var p := Pow10(|s| - 1);
      assert d * p >= 0;
      assert AllDigits(s[1..]) by {
        forall i | 0 <= i < |s| - 1 ensures '0' <= s[1..][i] <= '9' {
          assert s[1..][i] == s[i + 1];
        }
      }
      d * p + DigitsValue(s[1..])
  }

  /** A digit string of length `n` spells a number below `10^n`. */
  lemma {:induction false} DigitsValueBound(s: string)
    requires AllDigits(s)
    ensures DigitsValue(s) < Pow10(|s|)
  {
    if s != [] {
      var p := Pow10(|s| - 1);
      var d := s[0] as int - '0' as int;
      DigitsValueBound(s[1..]);
      LeadingDigitDecides(d, 10, p, DigitsValue(s[1..]), 0);
    }
  }

  /** A smaller leading digit gives a smaller number, whatever follows. */
  lemma LeadingDigitDecides(d: int, e: int, p: nat, x: nat, y: nat)
    requires 0 <= d < e && x < p
    ensures d * p + x < e * p + y
  {
    assert e * p == (d + 1) * p + (e - d - 1) * p;
    assert (e - d - 1) * p >= 0;
  }

  /** On digit strings of equal length the string order `sort` uses is the
      order of the numbers they spell. */
  lemma {:induction false} DigitsOrder(a: string, b: string)
    requires |a| == |b| && AllDigits(a) && AllDigits(b)
    ensures Less(a, b) <==> DigitsValue(a) < DigitsValue(b)
  {
    if a != [] {
      var p := Pow10(|a| - 1);
      var da, db := a[0] as int - '0' as int, b[0] as int - '0' as int;
      DigitsValueBound(a[1..]);
      DigitsValueBound(b[1..]);
      if da < db {
        LeadingDigitDecides(da, db, p, DigitsValue(a[1..]), DigitsValue(b[1..]));
      } else if db < da {
        LeadingDigitDecides(db, da, p, DigitsValue(b[1..]), DigitsValue(a[1..]));
      } else {
        DigitsOrder(a[1..], b[1..]);
      }
    }
  }

  /** `keys.filter(key => key !== name)`. */
  function Without(keys: seq<string>, name: string): (r: seq<string>)
    ensures forall k :: multiset(r)[k] == if k == name then 0 else multiset(keys)[k]
  {
    if keys == [] then []
    else
      assert keys == [keys[0]] + keys[1..];
      var rest := Without(keys[1..], name);
      if keys[0] == name then rest else [keys[0]] + rest
  }

  /** The record's keys other than the name field. */
  function YearKeys(d: Record): seq<string>
  {
    Without(Keys(d), NameKey)
  }

  /** `.sort().reverse()` on the year keys. */
  function Years(d: Record): seq<string>
  {
    Reverse(Sort(YearKeys(d)))
  }

  /** A record's year keys are all different, as its keys are. */
  lemma YearKeysDistinct(d: Record)
    requires WellFormed(d)
    ensures Distinct(YearKeys(d))
  {
    DistinctIff(Keys(d));
    DistinctIff(YearKeys(d));
  }

  /** The years of the series are the record's keys minus the name field,
      each once, newest (greatest) first. */
  lemma YearsDescending(d: Record)
    requires WellFormed(d)
    ensures StrictlyDescending(Years(d))
    ensures Distinct(Years(d))
    ensures forall k :: k in Years(d) <==> k in Keys(d) && k != NameKey
  {
    var yk := YearKeys(d);
    var s := Sort(yk);
    YearKeysDistinct(d);
    SortDistinct(yk);
    ReverseDescending(s);
    ReverseMembers(s);
    forall k ensures k in s <==> k in Keys(d) && k != NameKey {
      assert k in s <==> k in multiset(s);
      assert k in Keys(d) <==> k in multiset(Keys(d));
    }
  }

  /** One point of the series: absent (a gap in the chart), or present
      with the raw text that `parseFloat` reads. */
  datatype Point = Absent | Present(text: string)

  /** A raw field is absent exactly when it is "NA", empty or `undefined`. */
  function ToPoint(f: Field): (p: Point)
    ensures p == Absent <==> f == Undefined || f == Text("NA") || f == Text("")
    ensures p != Absent ==> f == Text(p.text)
  {
    match f
    case Undefined => Absent
    case Text(s) => if s == "NA" || s == "" then Absent else Present(s)
  }

  /** The parallel sequences `selectDistrict` hands to the chart and the table. */
  datatype Series = Series(years: seq<string>, labels: seq<string>, points: seq<Point>)

  function SelectDistrict(d: Record): (s: Series)
    ensures s.years == Years(d)
    ensures |s.labels| == |s.years| && |s.points| == |s.years|
    ensures forall i :: 0 <= i < |s.years| ==>
      s.labels[i] == FormatYearLabel(s.years[i]) && s.points[i] == ToPoint(Get(d, s.years[i]))
  {
    var years := Years(d);
    Series(years,
           seq(|years|, i requires 0 <= i < |years| => FormatYearLabel(years[i])),
           seq(|years|, i requires 0 <= i < |years| => ToPoint(Get(d, years[i]))))
  }

  /** When every year key has eight characters the chart's labels run
      strictly from the newest school year to the oldest. */
  lemma ChartLabelsDescending(d: Record)
    requires WellFormed(d)
    requires forall k :: k in Keys(d) && k != NameKey ==> |k| == 8
    ensures var labels := SelectDistrict(d).labels;
      forall i, j :: 0 <= i < j < |labels| ==> Less(labels[j], labels[i])
  {
    var s := SelectDistrict(d);
    YearsDescending(d);
    forall i, j | 0 <= i < j < |s.labels| ensures Less(s.labels[j], s.labels[i]) {
      assert s.years[i] in Years(d) && s.years[j] in Years(d);
      FormatYearLabelOrder(s.years[j], s.years[i]);
    }
  }

  /** The digit strings `ys` spell strictly decreasing numbers. */
  predicate DecreasingValues(ys: seq<string>)
  {
    forall i, j :: 0 <= i < j < |ys| ==>
      AllDigits(ys[i]) && AllDigits(ys[j]) && DigitsValue(ys[j]) < DigitsValue(ys[i])
  }

  /** The digit strings `ys` spell strictly increasing numbers. */
  predicate IncreasingValues(ys: seq<string>)
  {
    forall i, j :: 0 <= i < j < |ys| ==>
      AllDigits(ys[i]) && AllDigits(ys[j]) && DigitsValue(ys[i]) < DigitsValue(ys[j])
  }

  /** When every year key is eight decimal digits, as "20192020" is, the
      years handed to the chart spell strictly decreasing numbers: the
      newest school year comes first. */
  lemma ChartYearsNewestFirst(d: Record)
    requires WellFormed(d)
    requires forall k :: k in Keys(d) && k != NameKey ==> |k| == 8 && AllDigits(k)
    ensures DecreasingValues(SelectDistrict(d).years)
  {
    YearsDescending(d);
    DescendingDigitKeys(Years(d));
  }

  /** Strictly descending eight-digit keys spell strictly decreasing numbers. */
  lemma DescendingDigitKeys(ys: seq<string>)
    requires StrictlyDescending(ys)
    requires forall k :: k in ys ==> |k| == 8 && AllDigits(k)
    ensures DecreasingValues(ys)
  {
    forall i, j | 0 <= i < j < |ys|
      ensures AllDigits(ys[i]) && AllDigits(ys[j]) && DigitsValue(ys[j]) < DigitsValue(ys[i])
    {
      DigitsOrder(ys[j], ys[i]);
    }
  }
}
