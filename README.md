# AI tools listing — data path model

A Dafny model of the data logic of a small Next.js site that lists AI tools
kept in a spreadsheet. It covers two pieces.

- **The `GET /api/tools` handler** (`src/app/api/tools/route.js`). It does
  the following:
  - rewrites the escaped line breaks of the service-account key;
  - reads a tool range and a subject range;
  - maps every positional row to an eight-field tool record;
  - flattens, cleans and de-duplicates the subject column;
  - answers with one JSON body, or with a single error body with status 500.

  This part is pure, so it is modelled as datatypes, functions and lemmas
  (module `ToolsRoute`).
- **The listing page** (`src/app/page.js`). It covers:
  - `parseDate` on `dd-mm-yyyy` strings;
  - the newest-first in-place sort of the fetched records;
  - the subject and rating filter effect;
  - the "latest additions" slice.

  The component's state slots are the fields of the class `HomePage.Home`.
  The sort is an in-place insertion sort on an `array`, proved equal to a
  stable sort specification. The filter effect is a method that reassigns
  a local list step by step.

Supporting modules:

- `Seqs`: `filter`, first-occurrence de-duplication (`[...new Set(...)]`),
  `flat()`, and subsequences.
- `JsStrings`: `split` on one character, `trim`, `Number` on digit
  strings, and decimal formatting.
- `JsDate`: the part of ECMAScript's `Date` behind
  `new Date(year, monthIndex, day)`. This is MakeFullYear, MakeDay with
  month and day overflow, and TimeClip, counted in whole days since the
  epoch.
- `StableSort`: `Array.prototype.sort` with a numeric comparator, which
  ECMAScript 2019 and later require to be stable.
- `Wrappers`: `Option`.

The upstream I/O is turned into input values:

- the environment variables are a value `Env`;
- the authenticated spreadsheet client is a function from the credentials
  it is built with to the outcome of both range reads (`SheetReads`);
- the page's `fetch` is the array passed to `Home.Load`.

## Model

| member | source | states |
|---|---|---|
| ToolsRoute.UnescapeNewlines | src/app/api/tools/route.js:12 | the rewrite never lengthens the key, and a key without a backslash-`n` pair comes through unchanged |
| ToolsRoute.UnescapeLeavesNoEscape | src/app/api/tools/route.js:12 | after the key's `\n` escapes are rewritten, no backslash-`n` pair remains |
| ToolsRoute.UnescapeEscape | src/app/api/tools/route.js:12 | rewriting is the inverse of spelling every line break as backslash-`n`, for keys with no such pair of their own |
| ToolsRoute.UnescapeHead | src/app/api/tools/route.js:12 | the rewritten key is empty exactly when the key is, and starts with `n` exactly when the key does |
| ToolsRoute.Get | src/app/api/tools/route.js:7-57 | an unset key fails before the client is built, with the TypeError message of `undefined.replace`; otherwise the client gets the rewritten key and its reads decide the response; a response carries an error exactly when its status is 500, and then no tools and no subjects |
| ToolsRoute.Respond | src/app/api/tools/route.js:31-55 | a thrown error gives the error body with status 500; no rows or an empty row list gives empty tools and subjects; otherwise there is one record per row, in row order, and the cleaned subjects; every success has status 200 and no error |
| ToolsRoute.NoRowsNoSubjects | src/app/api/tools/route.js:34-36 | with no tool rows the body is `{tools: [], subjects: []}` whatever the subject range holds |
| ToolsRoute.MissingSubjectRange | src/app/api/tools/route.js:32 | an absent subject range answers as an empty list of subject rows does |
| ToolsRoute.Cell | src/app/api/tools/route.js:39-46 | each field's default is the cell when it holds a non-empty string, and `""` when the cell is missing or empty |
| ToolsRoute.ToRecord | src/app/api/tools/route.js:38-47 | field `i` of the record is cell `i` of the row when that cell exists and `""` otherwise |
| ToolsRoute.ToRecords | src/app/api/tools/route.js:38 | exactly one record per row, in row order |
| ToolsRoute.RecordRoundTrip | src/app/api/tools/route.js:38-47 | a record's eight fields, read back as a row, give the same record |
| ToolsRoute.FieldsOfRecord | src/app/api/tools/route.js:38-47 | a record's fields are the row's first eight cells, padded with `""` |
| ToolsRoute.ShortAndLongRows | src/app/api/tools/route.js:39-46 | padding a short row with `""` cells, or adding cells past the eighth, gives the same record |
| ToolsRoute.Subjects | src/app/api/tools/route.js:50 | the subjects hold no `""` and no string twice, and every subject is a cell of the subject rows |
| ToolsRoute.SubjectsSpec | src/app/api/tools/route.js:50 | subjects never contain `""`; a string is a subject exactly when it is a non-empty cell of the flattened rows; no subject appears twice; subjects are in first-occurrence order of the row-major flattening |
| ToolsRoute.SubjectCells | src/app/api/tools/route.js:50 | a string is a subject exactly when it is non-empty and some subject row holds it |
| ToolsRoute.DedupMembers | src/app/api/tools/route.js:50 | de-duplication keeps exactly the strings of its input |
| ToolsRoute.ShortRowExample | src/app/api/tools/route.js:38-47 | a three-cell row gives a record whose other five fields are `""` |
| ToolsRoute.SubjectsExample | src/app/api/tools/route.js:50 | subject rows `AI`, `ML`, empty, `AI` give `["AI", "ML"]` |
| Seqs.Dedup | src/app/api/tools/route.js:50 | `[...new Set(s)]`: every element of `s` is kept, nothing else appears, no duplicates, first-occurrence order |
| Seqs.Filter | src/app/page.js:40-49 | every element `filter` keeps satisfies the predicate, and it keeps no more elements than its input has |
| Seqs.FilterIsSubsequence | src/app/page.js:40-49 | a filtered list is an order-preserving subsequence holding exactly the elements that pass |
| Seqs.FilterCounts | src/app/page.js:40-49 | a filtered list holds each element that passes as many times as the input does, and no element that fails |
| Seqs.FilterFilter | src/app/page.js:39-50 | two filters in a row are one filter by their conjunction |
| Seqs.Flatten | src/app/api/tools/route.js:50 | `flat()` has as many cells as all the rows together |
| Seqs.FlattenConcat | src/app/api/tools/route.js:50 | `flat()` is row-major: flattening two lists of rows one after the other is flattening each and concatenating |
| Seqs.FlattenMembers | src/app/api/tools/route.js:50 | `flat()` holds exactly the cells of the rows |
| HomePage.ParseDate | src/app/page.js:14-18 | an empty date string parses to `new Date(0)` |
| HomePage.DateOfPieces | src/app/page.js:16-17 | fewer than three `-`-separated pieces give an invalid date |
| HomePage.DateOfNumbers | src/app/page.js:16-17 | pieces that read as numbers give `new Date(year, month - 1, day)`, whatever pieces follow the third |
| HomePage.ParseFormatted | src/app/page.js:14-18 | a `dd-mm-yyyy` string of a real calendar day (four-digit year) parses to that day, whatever follows a further `-` |
| HomePage.ParseNumbers | src/app/page.js:16-17 | three digit strings joined by `-` parse to the date of their numbers, month counted from 1 |
| HomePage.SplitDate | src/app/page.js:16 | separator-free day, month and year strings joined by `-` are the first three pieces of the split |
| HomePage.ParseDateExample | src/app/page.js:14-18 | `"05-03-2024"` parses to 5 March 2024 |
| HomePage.SortKey | src/app/page.js:25 | the comparator's key of a dated record is its day number, and a record with an empty date is keyed at the epoch |
| HomePage.SortedByDate | src/app/page.js:25 | on dated records the sort keeps the same records, orders them by parsed date with the newest first, and keeps records of one date in fetched order |
| HomePage.SortExample | src/app/page.js:25 | records dated `01-01-2020`, `31-12-2023` and `15-06-2022` sort as 2023, 2022, 2020 |
| HomePage.SubjectTags | src/app/page.js:41 | one tag per comma-separated piece of the subject; no tag holds a comma or has whitespace at either end; a subject without a comma gives the single tag of its trim |
| HomePage.HasSubject | src/app/page.js:41-42 | the subject test holds exactly when the wanted value equals the trim of some comma-separated piece; a value with a comma or with whitespace at either end never passes |
| HomePage.SubjectListMatches | src/app/page.js:41-42 | a subject written as a comma-separated list, with any whitespace around its tags, passes a subject filter exactly when the filter value equals one of the tags |
| HomePage.RatingMatchExample | src/app/page.js:46-49 | ratings compare as strings: `"5"` passes `"5"` but not `"05"`, and an empty rating filter lets the record through |
| HomePage.Shown | src/app/page.js:39-49 | with both filters empty every record passes; a record that passes matches each set filter; a record that fails misses a set filter |
| HomePage.Visible | src/app/page.js:36-53 | the listing is no longer than the tools, and every listed record passes both active filters |
| HomePage.VisibleRecords | src/app/page.js:36-53 | the listing is an order-preserving subsequence of the tools and holds exactly the records that pass both active filters, every copy of such a record included |
| HomePage.UnfilteredListsAll | src/app/page.js:37-52 | with both filters empty the listing is all the tools |
| HomePage.Home.constructor | src/app/page.js:7-11 | the initial state: every list empty, both filters empty |
| HomePage.Home.Recompute | src/app/page.js:36-53 | the filter effect applies the subject filter, then the rating filter, each only when set; the stored listing is the tools filtered by both active predicates |
| HomePage.Home.Load | src/app/page.js:25-28 | the fetched array is sorted in place into the stable newest-first order; it becomes the tools, the subjects are stored as fetched, the filters are unchanged, and the listing is the filtered tools, so it is all the tools when no filter is set |
| HomePage.Home.SetSubjectFilter | src/app/page.js:115 | choosing a subject changes only that filter, and the re-run effect keeps the listing equal to the filtered tools |
| HomePage.Home.SetRatingFilter | src/app/page.js:127 | choosing a rating changes only that filter, and the re-run effect keeps the listing equal to the filtered tools |
| HomePage.Home.LatestTools | src/app/page.js:55 | the first min(3, number of tools) tools, independent of both filters; in a valid state none is older than a tool it leaves out |
| StableSort.SortDescInPlace | src/app/page.js:25 | sorting the array in place leaves exactly the stable descending-key order of its old contents |
| StableSort.InsertInPlace | src/app/page.js:25 | one insertion step puts `a[i]` into the sorted prefix where the order says and leaves the rest of the array alone |
| StableSort.ShiftRight | src/app/page.js:25 | elements with a smaller key than the inserted one move one place right, and the free slot is the first whose left neighbour's key is at least the inserted key |
| StableSort.SortDesc | src/app/page.js:25 | the sort keeps the length, and leaves a sequence already in non-increasing key order unchanged |
| StableSort.SortDescPermutes | src/app/page.js:25 | the sorted sequence is a permutation of the input |
| StableSort.SortDescOrdered | src/app/page.js:25 | the sorted sequence has non-increasing keys |
| StableSort.SortDescStable | src/app/page.js:25 | elements with equal keys keep their input order |
| StableSort.SortThree | src/app/page.js:25 | three elements with keys smallest, largest, middle sort as largest, middle, smallest |
| JsStrings.JoinSplit | src/app/page.js:16 | joining the pieces of a split with the separator gives the string back |
| JsStrings.SplitJoin | src/app/page.js:41 | splitting separator-free pieces joined by the separator gives the pieces back |
| JsStrings.Split | src/app/page.js:16 | a split has at least one piece, and no piece holds the separator |
| JsStrings.Trim | src/app/page.js:41 | a trimmed string has no whitespace at either end |
| JsStrings.TrimCore | src/app/page.js:41 | a string is whitespace, then its trim, then whitespace |
| JsStrings.TrimPadded | src/app/page.js:41 | trimming a trimmed string surrounded by whitespace gives that string |
| JsStrings.TrimIdempotent | src/app/page.js:41 | trimming twice is trimming once |
| JsStrings.NumberOf | src/app/page.js:16 | `Number` of a blank string is 0, and a string `Number` reads has only whitespace and digits |
| JsStrings.NumberOfDigits | src/app/page.js:16 | `Number` of a bare digit string is its decimal value |
| JsStrings.NumberOfPadded | src/app/page.js:16 | `Number` of a zero-padded decimal numeral is the number |
| JsDate.MakeFullYear | src/app/page.js:17 | years 0 to 99 mean 1900 to 1999 with the same last two digits; every other year is itself |
| JsDate.MakeDay | src/app/page.js:17 | a real calendar day's number lies between the first day of its year and the first day of the next |
| JsDate.NewDate | src/app/page.js:17 | a valid `new Date(year, monthIndex, day)` lies within TimeClip's range; a real calendar day of a four-digit year is that day's number, and a year from 0 to 99 gives the same day in 1900 to 1999 |
| JsDate.CalendarOrder | src/app/page.js:25 | on real calendar days, day numbers compare as the (year, month, day) triples do, and are equal exactly when the triples are |
| JsDate.DayOverflow | src/app/page.js:17 | the day after a month's last day is the first of the next month, or of the next year after December |
| JsDate.DayFromYearNext | src/app/page.js:17 | each year lasts from its first day to the first day of the next year |
| JsDate.EpochIsFirstOfJanuary1970 | src/app/page.js:15-17 | at day granularity, `new Date(1970, 0, 1)` is day 0, the day of `new Date(0)`; the time-zone offset between the two is left out |

## Left out

- Google authentication, the `googleapis` client and its two range reads are not modelled (`src/app/api/tools/route.js:1-29`). Their outcome is the input function `sheets` of `ToolsRoute.Get`. The environment variables are the input value `Env`.
- The spreadsheet id and range strings are not modelled. They are only passed to the client.
- `console.error` logging is left out, in both files, because it has no effect on the data.
- `fetch('/api/tools')`, `response.json()`, `async`/`await` and the React hooks machinery are left out. `Home.Load` receives the fetched records as an array. The catch branch of `fetchTools` changes no state, so it is not a method of its own.
- The effect that re-runs when `tools` or a filter changes is an explicit call to `Home.Recompute` at the end of `Load`, `SetSubjectFilter` and `SetRatingFilter`.
- The page's `tools` state and the fetched array are the same JavaScript object. In the model, `tools` is a sequence copied from the sorted array, so aliasing between them is not modelled.
- All JSX rendering is left out, with the star strings built from the rating. `src/components/Tool.js` and `src/app/layout.js` are not part of this model; they are presentation.
- HomePage.Home.Load: requires every fetched record to have a date that parses. That is empty strings and strings that give a valid `Date`. An invalid date makes the comparator return NaN; the order ECMAScript then produces is implementation-defined, so it is not modelled. This is also why `SortKey`'s value for an invalid date is never consulted.
- Dates are day numbers at local midnight. The time-zone offset between `new Date(0)` (UTC midnight) and `new Date(y, m, d)` (local midnight) is not modelled, nor daylight-saving time. Comparisons between dates are comparisons of these day numbers.
- JsStrings.NumberOf: reads only what remains after trimming — an empty string (0) or a string of decimal digits. Every other input is not-a-number. So `Number`'s other notations (sign, decimal point, exponent, `0x`, `Infinity`) are treated as invalid although JavaScript accepts them. Digit strings beyond 2^53 are read exactly, while JavaScript rounds them to a double. A day, month or year that large puts the date far outside TimeClip's range, so the date is invalid either way.
- JsStrings.IsWhitespace: the set covers space, tab, line feed, carriage return, vertical tab, form feed, no-break space and the byte-order mark. The other Unicode whitespace that `String.prototype.trim` removes is not in the set: U+1680, U+2000 to U+200A, the line and paragraph separators, U+202F, U+205F and U+3000.
- The handler sets no HTTP headers of its own, so there are none to model.
