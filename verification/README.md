# Column filters of a data grid, in Dafny

This project models the pure filtering logic behind the column filters of a
React data grid (`mantine-data-grid`). Each column filter is a catalog of
operators. An operator is a code, a label and a predicate over a row value
and a filter value. A catalog also has an initialiser, which reshapes the
filter value whenever the user switches operator. Three catalogs are
modelled:

- **strings** (`StringFilter`): six case-insensitive operators, `in`, `nin`,
  `eq`, `neq`, `start` and `end`. Both operands are lower-cased by `Format`,
  and the JavaScript string primitives they use are in `Text`.
- **dates** (`DateFilter`): six single-date operators and `range`. They
  compare at minute granularity when `withTime` is set and at day
  granularity otherwise. The module also holds the scalar/range
  initialiser and `combineTimeAndDate`.
- **booleans** (`BooleanFilter`): the string/boolean conversion used by the
  widgets, the single `eq` operator and its initialiser.

`Highlight` models how the list of highlighted terms is built from a cell's
column filter value and the table's global search term. `Operators` holds
the operator record shared by all catalogs, and `Wrappers` holds `Option`.

## Assumption about dates

The grid compares dates with the dayjs library, which is not part of this
model. `DateFilter` replaces it with an abstract instant,
`Valid(minutes since the epoch) | Invalid`, and makes these assumptions:

- `dayjs(null)` and `dayjs(Number.MAX_VALUE)` are `Invalid`.
- `dayjs(Number.MIN_VALUE)` is the epoch.
- At a given granularity, dayjs comparisons compare both instants truncated
  to that unit: `minutes` for minute granularity, `minutes / 1440` for day
  granularity.
- Every comparison involving `Invalid` is false.

How dayjs parses a non-null filter string is a parameter,
`parse: string -> Instant`. Row values are given as instants already.

## Where the code differs from its apparent intent

The model follows the code. Each item below says what the code does, what
the code itself would lead a reader to expect, and which lemma states it.

- **Switching into `range`.** The previous single date is not used as the
  start of the range. Switching to `range` from a single date gives
  `[null, null]`, because `initDateFilterValue` keeps `last` only when it is
  already an array. The string filter's initialiser keeps its previous value
  across operator switches, so one might expect `[date, null]` here. Switching from
  `range` to any other operator gives `null`, not the range's start
  (`DateFilter.ShapeSwitchDiscards`).
- **Single-date operators.** The operator names `equals`, `greaterThan` and so
  on suggest a comparison with the date the user entered. Instead, for a
  non-array value, `getLeftValue` returns the fixed sentinel
  `dayjs(Number.MIN_VALUE)`. Every row is therefore compared with the epoch,
  and the entered date plays no part (`DateFilter.ScalarIgnoresValue`).
- **Missing range bound.** A `null` bound reads as an unbounded side, the way
  `Number.MAX_VALUE` serves as the right bound for non-arrays. Instead, the
  bound becomes `dayjs(null)`, which is invalid. Under the dayjs assumption,
  a range with a missing bound therefore matches no row
  (`DateFilter.RangeInclusive`). The right sentinel `dayjs(Number.MAX_VALUE)`
  is itself invalid, so `range` over a single date matches nothing either.
- **`notEquals` on invalid rows.** `notEquals` is the plain negation of
  `equals`, so it is true for a row whose date is invalid. Every other
  operator is false for such a row (`DateFilter.NotEqualsNegates`).
- **Highlighting non-strings.** The filter state is cast to
  `DataGridFilterState<string>`, which suggests only strings are
  highlighted. No check is made, though, so any truthy value is pushed,
  including a date range or `true` (`Highlight.HighlightTruthiness`).

## Model

| member | source | states |
| Text.StartsWith | src/filters/stringFilter.tsx:49 | JavaScript `startsWith`: the prefix is no longer than the string and matches it character by character from the front |
| Text.EndsWith | src/filters/stringFilter.tsx:55 | JavaScript `endsWith`: the suffix is no longer than the string and matches its last characters position by position |
| Text.Includes | src/filters/stringFilter.tsx:25 | JavaScript `includes`: the left-to-right search succeeds exactly when the needle occurs at some index of the haystack, proved from the recursive calls' contracts |
|---|---|---|
| Text.EndsWithIncludes | src/filters/stringFilter.tsx:55 | a string's suffix is also a substring of it |
| StringFilter.Format | src/filters/stringFilter.tsx:6 | the folded string has the input's length, and each character is the lower-case form of the input's character at that position |
| StringFilter.FormatIdempotent | src/filters/stringFilter.tsx:6 | folding an already folded string changes nothing |
| StringFilter.Includes | src/filters/stringFilter.tsx:25 | `in` holds iff the folded filter occurs at some index of the folded row |
| StringFilter.NotIncludes | src/filters/stringFilter.tsx:31 | `nin` holds iff the folded filter occurs at no index of the folded row |
| StringFilter.Equals | src/filters/stringFilter.tsx:37 | `eq` holds iff row and filter have the same length and agree, up to case, at every position |
| StringFilter.NotEquals | src/filters/stringFilter.tsx:43 | `neq` holds iff the lengths differ or some position differs even up to case |
| StringFilter.StartsWith | src/filters/stringFilter.tsx:49 | `start` holds iff the filter is no longer than the row and matches its first characters up to case |
| StringFilter.EndsWith | src/filters/stringFilter.tsx:55 | `end` holds iff the filter is no longer than the row and matches its last characters up to case |
| StringFilter.CaseInsensitive | src/filters/stringFilter.tsx:6-55 | each of the six operators gives the same answer when either operand is replaced by its lower-cased form |
| StringFilter.NegatedOperators | src/filters/stringFilter.tsx:25-43 | `notIncludes` is exactly `!includes` and `notEquals` is exactly `!equals` for all inputs |
| StringFilter.OperatorStrength | src/filters/stringFilter.tsx:25-55 | `equals` implies `startsWith`, `endsWith` and `includes`; `startsWith` and `endsWith` each imply `includes` |
| StringFilter.EmptyFilter | src/filters/stringFilter.tsx:25-55 | with an empty filter, `includes`, `startsWith` and `endsWith` hold for every row and `notIncludes` for none |
| StringFilter.StartsWithExample | src/filters/stringFilter.tsx:49 | filter "Al" under `startsWith` keeps "Alice" and "alice" and drops "Balice" |
| StringFilter.InitStringFilterValue | src/filters/stringFilter.tsx:62 | a previous value, including "", is kept unchanged; an absent one becomes "" |
| StringFilter.InitStringStable | src/filters/stringFilter.tsx:62 | the initialiser does not depend on the operator, and re-initialising its result changes nothing |
| StringFilter.StringCatalog | src/filters/stringFilter.tsx:21-70 | the default catalog has codes in, nin, eq, neq, start, end in that order, pairwise distinct, each bound to its predicate |
| DateFilter.Trichotomy | src/filters/dateFilter.tsx:3-13 | under the dayjs assumption, two valid instants are in exactly one of same/before/after order at a unit, and an invalid one is in none of them |
| DateFilter.IsSame | src/filters/dateFilter.tsx:103 | dayjs `a.isSame(b, unit)`: both valid and `b` lies between the first and last minute of `a`'s unit |
| DateFilter.IsBefore | src/filters/dateFilter.tsx:134 | dayjs `a.isBefore(b, unit)`: both valid and the last minute of `a`'s unit is before `b` |
| DateFilter.IsAfter | src/filters/dateFilter.tsx:117 | dayjs `a.isAfter(b, unit)`: both valid and `b` is before the first minute of `a`'s unit |
| DateFilter.IsSameOrBefore | src/filters/dateFilter.tsx:144 | the `isSameOrBefore` plugin: both valid and `a`'s unit is at or before `b`'s |
| DateFilter.IsSameOrAfter | src/filters/dateFilter.tsx:127 | the `isSameOrAfter` plugin: both valid and `a`'s unit is at or after `b`'s |
| DateFilter.GetLeftValue | src/filters/dateFilter.tsx:28 | a range yields its parsed start (invalid when null); any single-date value yields the epoch sentinel, whatever the date |
| DateFilter.GetRightValue | src/filters/dateFilter.tsx:29 | a range yields its parsed end (invalid when null); a single-date value yields an invalid instant |
| DateFilter.Equals | src/filters/dateFilter.tsx:103 | `eq` keeps a valid row exactly when it lies within the minute (with time) or day (without) of the compared instant |
| DateFilter.NotEquals | src/filters/dateFilter.tsx:109-110 | `neq` keeps a row that is invalid, or compared against an invalid instant, or outside the compared unit |
| DateFilter.GreaterThan | src/filters/dateFilter.tsx:116-117 | `gt` keeps a valid row exactly when it is after the last minute of the compared unit |
| DateFilter.GreaterThanOrEquals | src/filters/dateFilter.tsx:126-127 | `gte` keeps a valid row exactly when it is at or after the first minute of the compared unit |
| DateFilter.LowerThan | src/filters/dateFilter.tsx:133-134 | `lt` keeps a valid row exactly when it is before the first minute of the compared unit |
| DateFilter.LowerThanOrEquals | src/filters/dateFilter.tsx:143-144 | `lte` keeps a valid row exactly when it is at or before the last minute of the compared unit |
| DateFilter.InRange | src/filters/dateFilter.tsx:150-156 | `range` keeps a valid row exactly when both bounds are valid and the row lies from the first minute of the start's unit to the last minute of the end's unit |
| DateFilter.NotEqualsNegates | src/filters/dateFilter.tsx:103-110 | `notEquals` is the exact negation of `equals` for the same row, value and `withTime`, so it accepts invalid rows |
| DateFilter.Granularity | src/filters/dateFilter.tsx:103-144 | all six single-value operators (`eq`, `neq`, `gt`, `gte`, `lt`, `lte`) compare exact minutes when `withTime` is set and calendar days otherwise; all but `neq` fail for invalid instants |
| DateFilter.SameDayRowsAgree | src/filters/dateFilter.tsx:100-158 | without `withTime`, two rows on the same calendar day get the same answer from all seven operators |
| DateFilter.OneUnitApart | src/filters/dateFilter.tsx:103 | a row one minute (with time) or one day (without) after an `equals` match does not match |
| DateFilter.ScalarIgnoresValue | src/filters/dateFilter.tsx:28-144 | for a single-date value, the six scalar operators give the same answer whatever the date, and `equals` means the row is on the epoch's day or minute |
| DateFilter.RangeInclusive | src/filters/dateFilter.tsx:147-156 | `range` holds iff the value is a pair with both bounds valid, the row valid, and start <= row <= end at the unit; a single date or a null bound matches nothing |
| DateFilter.RangeBoundsInclusive | src/filters/dateFilter.tsx:150-155 | a row equal to either bound of a well-ordered range matches |
| DateFilter.InitDateFilterValue | src/filters/dateFilter.tsx:161-166 | the result is a range iff the operator is `range`; a previous range is kept for `range`, else [null, null]; a previous non-empty date is kept for other operators, else null |
| DateFilter.InitIdempotent | src/filters/dateFilter.tsx:161-166 | initialising twice for the same operator gives the same value as once |
| DateFilter.ShapeSwitchDiscards | src/filters/dateFilter.tsx:161-166 | switching to `range` from a date gives [null, null], and switching from a range to a scalar operator gives null |
| DateFilter.InitKeepsFittingValue | src/filters/dateFilter.tsx:161-166 | a value already shaped for the operator is kept, except that an empty date string becomes null |
| DateFilter.SetHourMinute | src/filters/dateFilter.tsx:35-38 | the combined timestamp keeps the date's calendar day and sub-minute part and takes hour and minute from the time |
| DateFilter.CombineTimeAndDate | src/filters/dateFilter.tsx:31-39 | both absent gives absent, an absent time returns the date unchanged, an absent date returns the time unchanged, and otherwise the date carries the time's hour and minute |
| DateFilter.DateOperators | src/filters/dateFilter.tsx:99-158 | the operators have codes eq, neq, gt, gte, lt, lte, range in that order, pairwise distinct, each bound to its predicate at the requested granularity |
| DateFilter.DateCatalog | src/filters/dateFilter.tsx:168-182 | the default date catalog has the seven codes in order, pairwise distinct, each bound to its predicate at day granularity (`withTime` false) |
| BooleanFilter.ToValue | src/filters/booleanFilter.tsx:5 | the widget string is always one of the two offered options, and it is "true" exactly for true |
| BooleanFilter.ToState | src/filters/booleanFilter.tsx:6 | a widget string reads as true exactly when it is "true" |
| BooleanFilter.StateRoundTrip | src/filters/booleanFilter.tsx:5-6 | converting a boolean to its widget string and back returns it |
| BooleanFilter.ValueRoundTrip | src/filters/booleanFilter.tsx:5-6 | each widget option converts to a boolean and back to itself, and every string other than "true" reads as false |
| BooleanFilter.Equals | src/filters/booleanFilter.tsx:52 | `eq` holds exactly when row and filter booleans are shown as the same widget string, i.e. are strictly equal |
| BooleanFilter.InitBooleanFilterValue | src/filters/booleanFilter.tsx:60 | the initial value is true for every operator and previous value |
| BooleanFilter.BooleanCatalog | src/filters/booleanFilter.tsx:48-61 | the catalog has one operator, code eq, keeping exactly the rows equal to the filter value |
| Highlight.HighlightTerms | src/filters/highlightFilterValue.tsx:10-19 | the list has one entry per truthy source; the filter value comes first and the global term last |
| Highlight.HighlightBounds | src/filters/highlightFilterValue.tsx:10-19 | the list has at most two terms, and it is empty when neither source contributes |
| Highlight.HighlightBoth | src/filters/highlightFilterValue.tsx:12-19 | a non-empty filter string and a non-empty global term give exactly [filter, global] |
| Highlight.HighlightSingle | src/filters/highlightFilterValue.tsx:12-19 | when only one source contributes, the list is the singleton of its term |
| Highlight.HighlightTruthiness | src/filters/highlightFilterValue.tsx:11-17 | empty strings and `false` contribute nothing; a truthy non-string value such as a date range is pushed as it is |

## Left out

- The generic engine `createOperatorFilter` is not part of this model. Its
  lookup of operators by code, its error behaviour and the `...options`
  overrides merged into each catalog are therefore not modelled. A catalog
  is just a sequence of operators with distinct codes.
- All widgets are UI and are left out. This covers `createStringFilterInput`,
  `StringFilterInput`, `createDateFilterInput`, `createBooleanFilterInput`,
  `DatesProvider`, locales, icons, styles and the `<Highlight>` rendering.
  The commented-out time inputs in the date widget are inactive and also
  left out.
- `parseDate` and `toISOString` are left out. They are glue at the widget
  boundary that relies on the ISO formatting of JavaScript `Date`.
- dayjs internals are replaced by the assumption above. This covers string
  parsing, `isValid`, time zones, local-day boundaries and the
  `isSameOrBefore`/`isSameOrAfter` plugins. In particular, days are counted
  in UTC.
- StringFilter.Format: lower-cases ASCII letters only. JavaScript's
  `toLowerCase` folds all of Unicode. The `String(val)` coercion of
  non-string rows is not modelled either, because rows are strings here.
- DateFilter.SetHourMinute: uses UTC hours and minutes. dayjs's
  `hour`/`minute` setters work in local time.
- Labels are cosmetic. Catalogs carry the source's default labels, and no
  property is stated about them.
- `src/TableComponents.tsx` is left out. It holds pass-through React
  wrappers with no logic.
