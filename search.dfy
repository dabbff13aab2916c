/** The suggestion filter behind the search box (`handleSearchInput`). */
module Search {
  import opened Strings
  import opened Seqs
  import opened Records

  /** Queries shorter than this bring up no suggestions. */
  const MinQueryLength: nat := 2
  /** At most this many suggestions are shown. */
  const MaxSuggestions: nat := 10

  /** The typed text lowered, then trimmed. */
  function Normalize(raw: string): string
  {
    Trim(Lower(raw))
  }

  /** A record is offered for query `q` when its name is truthy and the
      lowered name contains `q`. */
  predicate Matches(d: Record, q: string)
  {
    HasName(d) && Includes(Lower(NameOf(d)), q)
  }

  /** `data.filter(d => Matches(d, q))`: the matching records, in dataset
      order, each as often as it occurs in `data`, and no other. */
  function Filter(data: seq<Record>, q: string): (r: seq<Record>)
    ensures IsSubsequence(r, data)
    ensures forall d :: multiset(r)[d] == if Matches(d, q) then multiset(data)[d] else 0
  {
    if data == [] then []
    else
      assert data == [data[0]] + data[1..];
      var rest := Filter(data[1..], q);
      if Matches(data[0], q) then [data[0]] + rest else rest
  }

  /** The records listed under the search box for the typed text `raw`. */
  function Suggestions(data: seq<Record>, raw: string): (r: seq<Record>)
    ensures |Normalize(raw)| < MinQueryLength ==> r == []
    ensures |r| <= MaxSuggestions
    ensures IsSubsequence(r, data)
    ensures forall d :: d in r ==> d in data && Matches(d, Normalize(raw))
  {
    var q := Normalize(raw);
    if |q| < MinQueryLength then []
    else
      var r := Take(Filter(data, q), MaxSuggestions);
      SubsequencePrefix(Filter(data, q), data, |r|);
      SubsequenceMembers(r, data);
      assert forall d :: d in r ==> multiset(Filter(data, q))[d] > 0;
      r
  }

  /** The suggestions are the leading matches: they open the list of all
      matching records, and they are all of them unless the list is cut at
      the limit. */
  lemma SuggestionsAreFirstMatches(data: seq<Record>, raw: string)
    requires |Normalize(raw)| >= MinQueryLength
    ensures var r := Suggestions(data, raw); var all := Filter(data, Normalize(raw));
      r == all[..|r|] && (|r| == MaxSuggestions || r == all)
  {
  }

  /** No matching record is passed over unless ten were already found. */
  lemma {:induction false} SuggestionsComplete(data: seq<Record>, raw: string, d: Record)
    requires |Normalize(raw)| >= MinQueryLength
    requires d in data && Matches(d, Normalize(raw))
    ensures d in Suggestions(data, raw) || |Suggestions(data, raw)| == MaxSuggestions
  {
    var all := Filter(data, Normalize(raw));
    assert multiset(all)[d] == multiset(data)[d] > 0;
  }

  /** When every record matches, filtering keeps the whole dataset. */
  lemma {:induction false} FilterAllMatch(data: seq<Record>, q: string)
    requires forall i :: 0 <= i < |data| ==> Matches(data[i], q)
    ensures Filter(data, q) == data
  {
    if data != [] {
      var rest := data[1..];
      assert forall i :: 0 <= i < |rest| ==> rest[i] == data[i + 1];
      FilterAllMatch(rest, q);
      assert Matches(data[0], q);
      assert Filter(data, q) == [data[0]] + Filter(rest, q);
      assert data == [data[0]] + rest;
    }
  }

  /** A dataset of at most ten records that all match is listed whole. */
  lemma SuggestionsAllMatch(data: seq<Record>, raw: string)
    requires |Normalize(raw)| >= MinQueryLength
    requires |data| <= MaxSuggestions
    requires forall i :: 0 <= i < |data| ==> Matches(data[i], Normalize(raw))
    ensures Suggestions(data, raw) == data
  {
    FilterAllMatch(data, Normalize(raw));
  }

  /** What the suggestion box shows: whether it is hidden, and the names
      listed in it, in order. */
  datatype Panel = Panel(hidden: bool, names: seq<string>)

  /** Every suggestion has a name, and that name contains the query once
      lowered: the box never lists a blank or unrelated name. */
  lemma SuggestionsNamed(data: seq<Record>, raw: string)
    ensures var r := Suggestions(data, raw);
      forall i :: 0 <= i < |r| ==> NameOf(r[i]) != "" && Includes(Lower(NameOf(r[i])), Normalize(raw))
  {
    var r := Suggestions(data, raw);
    forall i | 0 <= i < |r| ensures NameOf(r[i]) != "" && Includes(Lower(NameOf(r[i])), Normalize(raw)) {
      assert r[i] in r;
    }
  }

  /** The names shown for the listed records, in order. */
  function Names(r: seq<Record>): seq<string>
  {
    seq(|r|, i requires 0 <= i < |r| => NameOf(r[i]))
  }

  /** The visible outcome of one input event. */
  function HandleSearchInput(data: seq<Record>, raw: string): (p: Panel)
    ensures p.hidden <==> Suggestions(data, raw) == []
    ensures |Normalize(raw)| < MinQueryLength ==> p.hidden && |p.names| == 0
    ensures |p.names| == |Suggestions(data, raw)| <= MaxSuggestions
    ensures forall i :: 0 <= i < |p.names| ==> p.names[i] == NameOf(Suggestions(data, raw)[i])
  {
    var r := Suggestions(data, raw);
    Panel(r == [], Names(r))
  }
}

/** A worked search: two districts whose names both start with "Lincoln". */
module SearchExample {
  import opened Strings
  import opened Records
  import opened Search

  const LincolnUnified := Record([Entry("clean_name", Text("Lincoln Unified"))])
  const LincolnEast := Record([Entry("clean_name", Text("Lincoln East"))])

  lemma LincQuery(q: string)
    requires q == "linc"
    ensures Normalize(q) == q
  {
    assert Lower(q) == q by {
      assert forall i :: 0 <= i < |q| ==> LowerChar(q[i]) == q[i];
    }
    assert TrimStart(q) == q by {
      assert !IsWhiteSpace(q[0]);
    }
    assert TrimEnd(q) == q by {
      assert !IsWhiteSpace(q[3]);
    }
  }

  lemma LincolnMatches(d: Record)
    requires d == LincolnUnified || d == LincolnEast
    ensures Matches(d, "linc")
  {
    var name := NameOf(d);
    assert Get(d, NameKey) == Text(name);
    assert name[..4] == "Linc";
    assert Lower(name)[..4] == "linc";
    assert StartsWith(Lower(name), "linc");
  }

  lemma LincolnAllMatch(data: seq<Record>, q: string)
    requires data == [LincolnUnified, LincolnEast] && q == "linc"
    ensures forall i :: 0 <= i < |data| ==> Matches(data[i], q)
  {
    forall i | 0 <= i < |data| ensures Matches(data[i], q) {
      LincolnMatches(data[i]);
    }
  }

  /** Typing "linc" lists both districts, in dataset order. */
  lemma LincolnSuggestions(data: seq<Record>, raw: string)
    requires data == [LincolnUnified, LincolnEast] && raw == "linc"
    ensures Suggestions(data, raw) == data
  {
    LincQuery(raw);
    LincolnAllMatch(data, raw);
    SuggestionsAllMatch(data, raw);
  }
}
