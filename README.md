# School district search: a verified model

The school-search widget lets a user look up a school district by name and
see its chronic-absenteeism rate, year by year, as a chart and a table. All
of its logic is in `school-search/script.js`. This project models the three
pure data transformations in it and proves what they do:

- **Suggestion filter** (`handleSearchInput`): the typed text is lowered and
  trimmed. A query shorter than two characters lists nothing. Otherwise the
  widget lists the first ten records whose `clean_name` is truthy and whose
  lowered name contains the query, in dataset order.
- **Year-series extraction** (`selectDistrict`, `formatYearLabel`): the
  record's keys other than `clean_name` are sorted and then reversed. Each key
  gets a label ("20192020" becomes "2019-2020"; a key of any other length is
  kept). Each key also gets a point, which is absent when the raw field is
  "NA", empty or `undefined`.
- **Table rows** (`renderTable`): both sequences are reversed, and there is
  one row per label, showing the value followed by "%" or "N/A".

Modules: `Strings` (JavaScript's `toLowerCase`, `trim`, `includes`, and the
string order used by `sort`), `Seqs` (`reverse`, `slice`, subsequences,
distinctness), `Records` (a parsed row as a JavaScript object), `Search`,
`Sorting` (`sort()` with no comparator), `YearSeries`, `Table`, and two
modules of worked examples (`SearchExample`, `TableExample`).

A record is the sequence of its own properties in `Object.keys` order. A
property is a string or `undefined`. A JavaScript object holds each key
once; lemmas that rely on this require `Records.WellFormed`.

**Where the code and its comments disagree.** The comments at lines 86-93
and 108-111 say the years are in ascending order for the chart and
reversed, newest first, for the table. The code calls `.reverse()` right
after `.sort()` (line 87). So the chart receives the greatest key first,
and the table, which reverses again, lists the smallest key first. The
model follows the code. `YearSeries.YearsDescending` and
`YearSeries.ChartLabelsDescending` prove the descending string order for
the chart; `Table.TableOldestFirst` and `Table.TableLabelsAscending` prove
the ascending string order for the table.

The comment at line 87 also says that string order is time order for keys
such as "20192020". `YearSeries.DigitsOrder` proves this for digit strings
of equal length: the string order is the order of the numbers they spell.
With every year key eight decimal digits, `YearSeries.ChartYearsNewestFirst`
and `Table.TableYearsOldestFirst` then put the chart newest first and the
table oldest first. `TableExample.LincolnSeries` and
`TableExample.LincolnTable` show both on a two-year record.

## Model

| member | source | states |
|---|---|---|
| Strings.Lower | school-search/script.js:48 | `toLowerCase` keeps the length, turns each ASCII capital into the small letter at the same place in the alphabet, and keeps every other character |
| Strings.TrimStart | school-search/script.js:48 | the leading part of `trim`: the result is a suffix of the input, everything dropped is ECMAScript white space, and the result does not start with white space |
| Strings.TrimEnd | school-search/script.js:48 | the trailing part of `trim`: the result is a prefix of the input, everything dropped is white space, and the result does not end with white space |
| Strings.Trim | school-search/script.js:48 | definition: the trailing white space dropped from what is left after the leading white space; its properties are `Strings.TrimParts`, `Strings.TrimSlice` and `Strings.TrimDropsTrailing` |
| Strings.TrimParts | school-search/script.js:48 | what `trim` keeps is the run of the input right after its leading white space: everything before and after the run is white space, and the run neither starts nor ends with white space |
| Strings.TrimSlice | school-search/script.js:48 | what `trim` keeps is one unbroken run of the input, starting right after the leading white space |
| Strings.TrimDropsTrailing | school-search/script.js:48 | everything `trim` drops after the kept run is white space |
| Strings.Includes | school-search/script.js:57 | definition: the query starts the string or is found in its tail; its property is `Strings.IncludesIff` |
| Strings.IncludesIff | school-search/script.js:57 | `includes` holds exactly when the query occurs at some position of the lowered name |
| Strings.Less | school-search/script.js:86 | definition: character by character, a proper prefix first; its properties are `Strings.LessIrreflexive`, `Strings.LessTransitive`, `Strings.LessTotal` and `Strings.LessAppend` |
| Strings.LessIrreflexive | school-search/script.js:86 | no string is ordered before itself |
| Strings.LessTransitive | school-search/script.js:86 | the string order `sort` uses is transitive |
| Strings.LessTotal | school-search/script.js:86 | any two different strings are ordered one way or the other |
| Strings.LessAppend | school-search/script.js:86 | for strings that start with parts of equal length, the first parts decide the order, and the rests decide only when the first parts are equal |
| Seqs.Reverse | school-search/script.js:87 | `reverse` keeps the length and puts element `n-1-i` of an `n`-element sequence at position `i` |
| Seqs.Take | school-search/script.js:58 | `slice(0, n)` is the prefix of length `n`, or the whole sequence when it is shorter |
| Seqs.SubsequencePrefix | school-search/script.js:58 | a prefix of a subsequence of the dataset is still a subsequence of it |
| Records.Keys | school-search/script.js:84 | definition: the keys of the record's entries, in order; `Records.WellFormed` says they are distinct |
| Records.Get | school-search/script.js:97 | `district[year]` is the value under the key's first entry, or `undefined` when the record lacks the key |
| Records.NameOf | school-search/script.js:57 | definition: the text of `clean_name`, or the empty string when it is `undefined` |
| Records.HasName | school-search/script.js:57 | definition: `clean_name` is truthy, that is present and not the empty string |
| Search.Normalize | school-search/script.js:48 | definition: the typed text lowered, then trimmed; its properties are those of `Strings.Lower` and `Strings.TrimParts` |
| Search.Matches | school-search/script.js:56-57 | definition: the filter callback, a truthy name whose lowered form includes the query; its properties are `Search.Filter` and `Search.SuggestionsNamed` |
| Search.Filter | school-search/script.js:56-57 | the filtered list is a subsequence of the dataset and holds every matching record as often as the dataset does, and no other record |
| Search.Suggestions | school-search/script.js:47-58 | a lowered and trimmed query shorter than 2 lists nothing; otherwise at most 10 records, each in the dataset with a truthy name whose lowered form contains the query, in dataset order |
| Search.SuggestionsAreFirstMatches | school-search/script.js:56-58 | the suggestions are a prefix of all matches, and they are all of them unless the list was cut at 10 |
| Search.SuggestionsComplete | school-search/script.js:56-58 | a matching record of the dataset is suggested unless 10 records are already suggested |
| Search.SuggestionsNamed | school-search/script.js:56-65 | every suggestion has a non-empty name, and that name contains the query once lowered |
| Search.FilterAllMatch | school-search/script.js:56-57 | when every record matches, the filter keeps the whole dataset in order |
| Search.SuggestionsAllMatch | school-search/script.js:56-58 | at most ten records that all match are listed whole |
| Search.Names | school-search/script.js:62-65 | definition: the `clean_name` of each listed record, in order; its property is `Search.HandleSearchInput` |
| Search.HandleSearchInput | school-search/script.js:47-72 | a short query hides the box; otherwise the box is hidden exactly when there are no suggestions, and it lists the name of each suggestion, in order |
| SearchExample.LincolnSuggestions | school-search/script.js:47-58 | typing "linc" lists "Lincoln Unified" and "Lincoln East" in dataset order |
| Sorting.Insert | school-search/script.js:86 | inserting into an ascending sequence keeps it ascending and adds exactly the one element |
| Sorting.Sort | school-search/script.js:86 | `sort()` returns an ascending rearrangement of the same strings |
| Sorting.SortedUnique | school-search/script.js:86 | two ascending rearrangements of the same strings are equal, so the result does not depend on the sorting algorithm |
| Sorting.SortDistinct | school-search/script.js:84-86 | sorting different strings gives a strictly ascending sequence with no repeats |
| Sorting.ReverseDescending | school-search/script.js:87 | reversing the sorted keys gives a strictly descending sequence |
| YearSeries.FormatYearLabel | school-search/script.js:126-132 | an 8-character key gives a 9-character label with '-' at position 4, and removing the hyphen gives the key back; any other key is returned unchanged |
| YearSeries.FormatYearLabelOrder | school-search/script.js:126-132 | on 8-character keys the labels are ordered exactly as the keys are |
| YearSeries.Without | school-search/script.js:85 | filtering out `clean_name` removes every occurrence of it and keeps every other key as often as it occurs |
| YearSeries.YearKeys | school-search/script.js:84-85 | definition: the record's keys without `clean_name`; its properties are `YearSeries.Without` and `YearSeries.YearKeysDistinct` |
| YearSeries.Years | school-search/script.js:84-87 | definition: the year keys sorted, then reversed; its property is `YearSeries.YearsDescending` |
| YearSeries.YearKeysDistinct | school-search/script.js:84-85 | the year keys of a record are all different |
| YearSeries.YearsDescending | school-search/script.js:84-87 | the years are exactly the record's keys other than `clean_name`, each once, in strictly descending order |
| YearSeries.ToPoint | school-search/script.js:96-98 | a point is absent exactly when the raw field is "NA", "" or `undefined`; otherwise it carries that raw text |
| YearSeries.SelectDistrict | school-search/script.js:84-99 | labels and points have the length of the years, and entry `i` of each comes from `years[i]` |
| YearSeries.ChartLabelsDescending | school-search/script.js:84-95 | with 8-character year keys, the chart's labels are strictly descending in string order, greatest key first |
| YearSeries.DigitsValueBound | school-search/script.js:87 | a digit string of length `n` spells a number below `10^n` |
| YearSeries.DigitsOrder | school-search/script.js:87 | on digit strings of equal length, the string order `sort` uses holds exactly when the first spells the smaller number |
| YearSeries.ChartYearsNewestFirst | school-search/script.js:84-87 | when every year key is eight decimal digits, the chart's years spell strictly decreasing numbers, so the newest school year comes first |
| Table.Display | school-search/script.js:117-118 | the cell shows "N/A" exactly for an absent value, and otherwise the number's text followed by "%" |
| Table.TableRows | school-search/script.js:113-119 | definition: row `i` pairs the label and the display `i` places from the end; its properties are `Table.RenderTable`, `Table.TableReversesLabels`, `Table.TableRowsAscending` and `Table.TableOldestFirst` |
| Table.RenderTable | school-search/script.js:105-124 | one row per label, where row `i` shows `labels[n-1-i]` and the display of `data[n-1-i]` |
| Table.TableReversesLabels | school-search/script.js:113-116 | the label column read bottom to top is the label sequence passed in |
| Table.TableOldestFirst | school-search/script.js:84-119 | for a selected district, row `i` shows the `i`-th smallest year key in string order and that key's value |
| Table.TableShowsReversedYears | school-search/script.js:113-116 | row `i` of a selected district's table shows the label of the key `i` places from the end of the chart's years |
| Table.TableYearsOldestFirst | school-search/script.js:84-116 | when every year key is eight decimal digits, row `i` of the table shows the label of key `i` of the reversed years, and those keys spell strictly increasing numbers from top to bottom, so the oldest school year comes first |
| Table.TableRowsAscending | school-search/script.js:113-119 | a strictly descending label sequence gives table labels that are strictly ascending from top to bottom |
| Table.TableLabelsAscending | school-search/script.js:84-119 | with 8-character year keys, the table's labels are strictly ascending in string order, smallest key first |
| TableExample.LincolnSeries | school-search/script.js:84-99 | a record with "20192020" = "12.5" and "20202021" = "NA" gives the chart labels "2020-2021", "2019-2020" and the points absent, 12.5 |
| TableExample.LincolnTable | school-search/script.js:105-124 | the same record's table rows are ("2019-2020", value "%") then ("2020-2021", "N/A") |

## Left out

- Loading the dataset with `Papa.parse` (lines 18-34) is not modelled, because it is a foreign CSV library with asynchronous callbacks. The parsed records are an input to every function here. The load-failure banner, the loading indicator and `console` logging (lines 27, 32, 224-232) go with it.
- DOM work is not modelled: element lookups, `classList` changes, `innerHTML` and `textContent` writes, creating and appending suggestion items, the event listeners, and click-outside dismissal (lines 7-13, 37-44, 49, 60-71, 75-81, 123). `Search.HandleSearchInput` keeps only whether the box is hidden and which names it lists.
- `renderChart` (lines 134-222) is not modelled, because it is configuration handed to Chart.js. The destroy-and-recreate of `chartInstance` goes with it. What the chart receives is `YearSeries.SelectDistrict`.
- Table.RenderTable: the rows are produced as (label, display) pairs, not as the HTML string written to `innerHTML`.
- Table.Display: `parseFloat` and JavaScript's number-to-text conversion are a parameter, `numText`, applied to the raw field text. The model does not say what text a number prints as, for example that "12.50" prints as "12.5" or that a non-numeric field prints as "NaN".
- YearSeries.ToPoint: a present point keeps the raw field text instead of the floating-point number `parseFloat` reads from it.
- Strings.Lower: only ASCII capitals are lowered, one character for one. JavaScript's full Unicode case mapping is not modelled, and it can change the length: "İ" (U+0130) lowers to two code units, so a one-character query of it passes the `query.length < 2` test at line 51 in JavaScript while the model lists nothing for it.
- Strings.Less: characters are compared by Unicode code point, while JavaScript compares UTF-16 code units. The two orders differ only between characters above U+FFFF and characters from U+E000 to U+FFFF.
- YearSeries.FormatYearLabel: the length test and the split at 4 count Unicode code points, while `length` and `substring` count UTF-16 code units. The two differ only for keys holding characters above U+FFFF; such a key is split by JavaScript when its code-unit length is 8 and by the model when its code-point length is 8.
- Search.Suggestions: the query length is counted in Unicode code points, while JavaScript counts UTF-16 code units. The two differ only for characters above U+FFFF.
- Sorting.Sort: the engine's sorting algorithm is not modelled; `Sorting.SortedUnique` shows that every correct sort of the keys gives this result.
