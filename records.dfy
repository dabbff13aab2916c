/** A district record: one row of the parsed dataset, a JavaScript object
    whose own keys are the header row's field names. */
module Records {
  import opened Seqs

  /** The name field every search and every heading uses. */
  const NameKey: string := "clean_name"

  /** A property read off a record: a string, or `undefined`. */
  datatype Field = Undefined | Text(text: string)

  datatype Entry = Entry(key: string, value: Field)

  /** The record's own properties in `Object.keys` order. */
  datatype Record = Record(entries: seq<Entry>)

  /** `Object.keys(d)`. */
  function Keys(d: Record): seq<string>
  {
    seq(|d.entries|, i requires 0 <= i < |d.entries| => d.entries[i].key)
  }

  /** An object holds each own key once. */
  predicate WellFormed(d: Record)
  {
    Distinct(Keys(d))
  }

  /** `d[k]`: the value stored under `k`, or `undefined` for a key the
      record does not have. */
  function Get(d: Record, k: string): (f: Field)
    ensures k !in Keys(d) ==> f == Undefined
    ensures forall i :: 0 <= i < |d.entries| && d.entries[i].key == k && (forall j :: 0 <= j < i ==> d.entries[j].key != k)
              ==> f == d.entries[i].value
    decreases |d.entries|
  {
    if d.entries == [] then Undefined
    else if d.entries[0].key == k then
      assert Keys(d)[0] == k;
      d.entries[0].value
    else
      assert Keys(Record(d.entries[1..])) == Keys(d)[1..];
      Get(Record(d.entries[1..]), k)
  }

  /** The text of `d.clean_name`; the empty string when it is `undefined`. */
  function NameOf(d: Record): string
  {
    match Get(d, NameKey)
    case Text(s) => s
    case Undefined => ""
  }

  /** `d.clean_name` is truthy: present and not the empty string. */
  predicate HasName(d: Record)
  {
    Get(d, NameKey).Text? && NameOf(d) != ""
  }
}
