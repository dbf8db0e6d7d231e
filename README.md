# NJ community-engagement map: filtering and county tallies

`NJMapApp.py` is a small Streamlit page that shows a university's
community-engagement activities on a map of New Jersey. The logic under the
map has four parts, and this project models each in Dafny:

- **State selection.** The New Jersey counties are picked out of a US-wide county
  boundary dataset (`STATE == "34"`).
- **Sidebar choices.** `extract_unique` turns a spreadsheet column of
  comma-delimited text into the sorted, duplicate-free list of stripped
  pieces shown in the sidebar.
- **Filter loop.** Each activity row is kept when it has both jittered
  coordinates, its point lies inside the state boundary, and its faculty,
  focus-area, activity and campus fields pass the four sidebar selections.
  Focus areas are conjunctive: every chosen area must be listed.
- **County counter and labels.** Each kept marker is credited to the first
  county, in feature order, whose shape contains it. A county gets a label
  with its percentage of all kept markers exactly when that percentage is
  positive.

The model has these modules:

- `Wrappers` defines `Option`.
- `Text` holds Python's `str.split`, `str.strip` (the `str.isspace` code
  points), the split-and-strip comprehension, and the `<` order on `str`.
- `Choices` holds `sorted` on a set of strings and `extract_unique`.
- `Geo` holds points, GeoJSON geometries, features and the state selection.
- `Filter` holds the sidebar selection, the row predicate and the filter loop.
- `Tally` holds the first-match county counter, the percentage and the label
  rule, and their sums.

Three loops of the source are methods with loop invariants:
`extract_unique` (`Choices.ExtractUnique`, whose inner loop is
`Choices.AddPieces`), the filter loop (`Filter.FilterPoints`) and the county
loop (`Tally.CountMarkers`, whose inner loop is `Tally.CreditFirstContaining`).
The filter loop and the county loop, and both inner loops, are proved equal
to specification functions, with the properties proved as lemmas about those
functions. `extract_unique` is proved against the properties it promises
directly. The label loop on lines 107-123 is modelled only by its decision,
the predicate `Tally.HasLabel`, since the rest of that loop draws on the map.

Geometric containment (`shape(...).contains(point)` in the geometry library)
is a parameter `contains: (Geometry, Point) -> bool` with no properties. So
the model takes no position on whether a point on an edge is inside. The
state boundary is a separate `Geometry` input, and nothing ties it to the
county shapes.

Three behaviours of the code are easy to get wrong, and the model follows
the code:

- **Blank pieces.** A blank comma-separated piece (`"a, ,b"`, `"a,,b"`, a
  trailing comma) is kept as the empty string `""`, both in the sidebar lists
  and in the parsed row fields (`BlankPieceListsEmpty`). It is not dropped.
- **Edges.** Whether a point on an edge counts as inside is left to the
  geometry library. It is not fixed as inclusive.
- **Percentage denominator.** The denominator is the number of all kept
  markers, including the markers no county contains. So the county
  percentages plus the share of uncounted markers add up to 100
  (`PercentagesAddUpTo100`), and the county percentages alone add up to 100
  only when every marker lies in some county.

## Model

| member | source | states |
|---|---|---|
| Text.Strip | NJMapApp.py:36 | `strip()` returns a contiguous middle part of its argument with only whitespace cut off on either side, and the result is empty or starts and ends with a non-whitespace character |
| Text.StripEmptyIffBlank | NJMapApp.py:36 | a string strips to `""` if and only if it is all whitespace |
| Text.StripUntrimmed | NJMapApp.py:36 | a non-empty string with no whitespace at either end is unchanged by `strip()` |
| Text.StripIdempotent | NJMapApp.py:36 | stripping twice equals stripping once |
| Text.Split | NJMapApp.py:35 | `split(sep)` has at least one piece and no piece contains `sep` |
| Text.JoinSplit | NJMapApp.py:35 | joining the pieces of `s` with the separator gives back `s` |
| Text.SplitJoin | NJMapApp.py:35 | splitting the join of separator-free pieces gives back exactly those pieces, empty ones included |
| Text.SplitTrim | NJMapApp.py:62-64 | the parsed field has one entry per comma-separated piece, at least one |
| Text.SplitTrimMembership | NJMapApp.py:62-64 | a value is in the parsed field if and only if some comma-separated piece strips to it |
| Text.SplitTrimEntriesClean | NJMapApp.py:62-64 | no parsed entry contains a comma or starts or ends with whitespace |
| Text.BlankPieceListsEmpty | NJMapApp.py:35-36 | a blank comma-separated piece puts `""` into the parsed list |
| Text.SplitTrimJoin | NJMapApp.py:62-64 | a comma-joined list of clean names parses back to exactly that list |
| Text.SplitExample | NJMapApp.py:35 | `"a, ,b".split(',')` is `["a", " ", "b"]` |
| Text.BlankMiddlePieceExample | NJMapApp.py:35-36 | the field `"a, ,b"` parses to three entries, one of them `""` |
| Text.IsSpace | NJMapApp.py:36 | the characters `strip()` removes: the code points Python's `str.isspace()` accepts (tab to carriage return, the file, group, record and unit separators, space, U+0085, U+00A0, U+1680, U+2000 to U+200A, U+2028, U+2029, U+202F, U+205F, U+3000) |
| Text.Below | NJMapApp.py:37 | Python's `a < b` on `str`, which `sorted` uses: compare code points from the left, and a proper prefix is smaller |
| Text.BelowIrreflexive | NJMapApp.py:37 | no string is below itself in Python's `str` order |
| Text.BelowTransitive | NJMapApp.py:37 | Python's `str` order is transitive |
| Text.BelowTotal | NJMapApp.py:37 | any two different strings are ordered one way or the other |
| Text.StrictlyIncreasingDistinct | NJMapApp.py:37 | a strictly increasing list repeats no element |
| Choices.SortedList | NJMapApp.py:37 | `sorted(items)` is strictly increasing and holds exactly the elements of the set, each once |
| Choices.ListedMembership | NJMapApp.py:33-36 | a value has been collected if and only if some non-missing entry of the column parses to a list containing it |
| Choices.AddPieces | NJMapApp.py:35-36 | the inner loop adds exactly the stripped pieces of one entry to the set |
| Choices.ExtractUnique | NJMapApp.py:32-37 | the result is strictly increasing, and a value is in it if and only if some non-missing entry has a comma-separated piece that strips to it |
| Geo.StateFeatures | NJMapApp.py:14 | the selection holds exactly the state-34 features, none of another state, and no feature more often than the input |
| Geo.StateFeaturesKeepOrder | NJMapApp.py:14 | the selection is the input restricted to the state-34 positions, in input order |
| Filter.FieldValues | NJMapApp.py:62-64 | a missing cell parses to the empty list; a present cell to its comma-separated pieces, each stripped |
| Filter.Location | NJMapApp.py:56-58 | no point when either coordinate is missing; otherwise the point with x the longitude and y the latitude |
| Filter.ChoicePasses | NJMapApp.py:66-69 | a faculty or campus choice passes when it is "All" or one of the parsed names |
| Filter.FocusPasses | NJMapApp.py:67 | passes when no focus area is chosen, or when every chosen one is in the parsed list |
| Filter.ActivityPasses | NJMapApp.py:68 | passes when the choice is "All" or the row's activity name equals it; a missing activity name equals no choice |
| Filter.SelectionMatches | NJMapApp.py:66-69 | the faculty, focus, activity and campus tests all pass |
| Filter.RowMatches | NJMapApp.py:62-69 | the row's three parsed fields and its activity name pass the selection |
| Filter.Keeps | NJMapApp.py:56-69 | the row has both coordinates, the boundary contains its point, and its fields pass the selection |
| Filter.Filtered | NJMapApp.py:53-70 | the markers, in row order, of the rows the loop keeps, each paired with the point built from that row |
| Filter.FilterPoints | NJMapApp.py:53-70 | the loop's result equals the specification `Filtered`, which appends the marker of each kept row in row order |
| Filter.FilteredPicksKeptRows | NJMapApp.py:53-70 | the markers are those of exactly the kept rows, each once, in row order, each at the point built from that row's own coordinates |
| Filter.FilteredMarkersAreKept | NJMapApp.py:56-70 | every marker's row has both coordinates, its point is (longitude, latitude), the boundary contains it, and the row passes the selection |
| Filter.MissingCoordinateNeverKept | NJMapApp.py:56-57 | a row missing either coordinate never yields a marker |
| Filter.FocusIsConjunctive | NJMapApp.py:63-67 | a row passes only if every chosen focus area is in its parsed focus list, so a row with no focus cell fails any non-empty choice |
| Filter.MissingCellPassesOnlyAll | NJMapApp.py:62-69 | a row with a missing faculty, campus or activity cell passes only when that selection is "All" |
| Filter.MoreFocusKeepsFewer | NJMapApp.py:67 | choosing more focus areas (same other choices) keeps a subset of the markers, never more |
| Filter.NoSelectionKeepsEveryRowInside | NJMapApp.py:56-70 | with every selectbox on "All" and no focus area chosen, a row is kept if and only if it has both coordinates and lies inside the boundary |
| Tally.Tally | NJMapApp.py:76-81 | the number of markers whose first containing county has the given name |
| Tally.Unassigned | NJMapApp.py:76-81 | the number of markers no county contains, which the loop credits to no one |
| Tally.Credited | NJMapApp.py:79-80 | the counter after one marker: one more for its county's name, unchanged when it has no county |
| Tally.FirstContaining | NJMapApp.py:77-81 | the index found is that of a feature containing the point with none before it containing it, and there is none exactly when no feature contains the point |
| Tally.CountyOf | NJMapApp.py:77-80 | a point's county, when it has one, is the name of one of the features |
| Tally.Names | NJMapApp.py:75 | the counter's keys are exactly the feature names |
| Tally.CreditFirstContaining | NJMapApp.py:77-81 | the inner loop adds one to the count of the first containing county's name and changes nothing else, or nothing when no county contains the point |
| Tally.CountMarkers | NJMapApp.py:75-81 | the counter has exactly the county names as keys, and each count is the number of markers whose first containing county has that name |
| Tally.SumTalliesStep | NJMapApp.py:76-81 | one more marker raises the summed counts by the number of times its county's name is listed, or by nothing when it has no county |
| Tally.TalliesPartitionMarkers | NJMapApp.py:75-81 | no marker is counted twice: the counts of distinct names plus the uncounted markers are at most the number of markers, and exactly that number when the names cover every county |
| Tally.TallyAtMostTotal | NJMapApp.py:75-81 | no county's count exceeds the number of markers |
| Tally.FirstCountyWins | NJMapApp.py:77-81 | a point is credited to the first county in feature order that contains it, even when later ones contain it too |
| Tally.Percentage | NJMapApp.py:112 | the percentage is 0 when there are no markers, never negative, and at most 100 when the count does not exceed the total |
| Tally.HasLabel | NJMapApp.py:113 | a county gets a label exactly when its percentage is positive |
| Tally.LabelIffCounted | NJMapApp.py:112-113 | a county is labelled if and only if there is at least one marker and at least one is credited to it |
| Tally.SumPercentagesScales | NJMapApp.py:111-112 | with markers present, the summed percentages are the summed counts over the total, times 100 |
| Tally.PercentagesAddUpTo100 | NJMapApp.py:111-112 | with markers present, the percentages of all counties plus the share of uncounted markers add up to exactly 100 |

## Left out

- The boundary download (`requests`), the GeoJSON parsing and `@st.cache_data` are I/O or caching, so they are left out. The feature list and the boundary are inputs.
- `pd.read_excel` is I/O and is left out. The spreadsheet is a sequence of `Row` values. A cell pandas reports as missing, `NaN` included, is `None`.
- The Streamlit sidebar widgets are UI, so they are left out. The selection is a `Selection` value.
- The choices offered in the sidebar are not checked against the selection. The model accepts any selection.
- `activity_list` on line 41 (sorted distinct activity names, without splitting) is not modelled. Only the comma-splitting `extract_unique` is.
- The geometry library (`shape`, `MultiPolygon`, `contains`) is foreign code. Containment is an uninterpreted parameter, and line 16's union of the county shapes into the boundary is not modelled: the boundary is a separate input.
- The boundary's bounds and the map centre (lines 20-22), the county centroids (line 110) and the mask polygon outside the state (lines 126-128) are pure geometry used for display, so they are left out.
- The folium map, tile layer, county borders, marker clusters, popups and label HTML (lines 84-104, 114-123 and after) are not modelled. Only the decision whether a county gets a label is.
- The `.1f` formatting of the percentage is display only, so it is left out.
- Coordinates and percentages are mathematical reals. Floating-point rounding and `NaN` arithmetic are not modelled.
- `Filter.FilterPoints` only models `str(...)` on string cells. A non-string faculty, focus or campus cell, which the source first turns into its text with `str()`, is outside the model because a cell is a string or missing.
- `Choices.ExtractUnique` treats every entry as text. A non-string entry, on which the source's `entry.split` would fail, is not modelled.
- The row fields the filter only passes on to the popups (organisations, e-mail, URL and so on) are not part of `Row`.
- `Tally.CountMarkers` models the counter as a map from name to count. A county name that occurs twice among the features has one key, and both features credit it, as in the source.
