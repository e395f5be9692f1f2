# browsers-party: a verified model of the table's display logic

browsers-party is a single-page web app that shows a sortable, filterable table of web
browsers. The sorting and filtering machinery belongs to a third-party table library. What
the app itself decides is small and pure, and this project models exactly that:

- the custom sort order of the **status** column (`active`, then `under development`,
  `dormant`, `dead`, then rows without a status), as a rank difference;
- the **cell renderers**: homepage and code values become links when they start with
  `"http"`; a status becomes a coloured badge; the os string becomes a list of Apple,
  Windows and Linux icons, chosen by substring containment and kept in that order;
- the **filter widget**: dispatch on the column's `filterVariant`, the Min/Max updaters of
  the range pair, what each input shows, the dropdown's fixed options, and the text input;
- the **header decorations**: the tooltip naming the next sort order, and the arrow showing
  the current direction;
- the **static configuration**: columns, built-in data, and initial sort and filter state of
  both the `App` and the `Table` component.

The entry points (src/main.tsx, src/EntryPoint.tsx) mount `App`, and `App` neither imports nor
renders `Table`. The status order, the cell renderers and the `Table` header are therefore
modelled as written, but no shown file puts them on screen.

Modules follow the source. `Types` is `src/types.ts`. `Table` is
`src/components/Table.tsx`. `Filter` is `src/components/Filter.tsx`. `App` is `src/App.tsx`.
`Header` holds the header logic that `App.tsx` and `Table.tsx` share; the tooltip code of src/components/Table.tsx:125-133 is identical to that of src/App.tsx:82-90. `Strings` models
JavaScript's `startsWith` and `includes`. `Wrappers` supplies `Option`, standing for
`T | undefined`. `Encoding` holds just enough UTF-8 and windows-1252 to state the finding
below.

Rendering is abstract: a cell is a datatype (`Anchor`/`Raw`, a badge of class and text, a
sequence of icon tags), not markup.

## Model

| member | source | states |
|---|---|---|
| Types.StatusName | src/types.ts:1 | each status is written as a non-empty literal |
| Types.StatusNameInjective | src/types.ts:1 | distinct statuses have distinct literals |
| Strings.StartsWith | src/components/Table.tsx:23 | `startsWith` holds exactly when the pattern is a prefix of the value |
| Strings.Includes | src/components/Table.tsx:71-77 | `includes` holds exactly when the pattern occurs at some offset of the value |
| Strings.OccursInTail | src/components/Table.tsx:71-77 | when there is no match at offset 0, the occurrences in a string are exactly those in its tail |
| Strings.NoFirstCharNoOccurrence | src/components/Table.tsx:74 | a pattern whose first character is absent from the value does not occur in it |
| Table.Rank | src/components/Table.tsx:58-65 | ranks run 1..5; rank r is position r of the intended order active, under development, dormant, dead, absent |
| Table.CompareStatus | src/components/Table.tsx:54-66 | the comparator lies in [-4, 4]; it is negative iff a ranks first, zero iff the statuses are equal, and positive iff b ranks first |
| Table.CompareFollowsStatusOrder | src/components/Table.tsx:58-65 | comparing two positions of the intended order is negative iff the first comes earlier, and zero iff they are the same position |
| Table.CompareAntisymmetric | src/components/Table.tsx:65 | swapping the arguments negates the result; a status compares equal to itself |
| Table.StatusLeIsTotalPreorder | src/components/Table.tsx:54-66 | "compares at most 0" is reflexive, transitive and total, and it is antisymmetric on statuses |
| Table.NeighboursAscendingIsAscending | src/components/Table.tsx:54-66 | rows whose neighbouring pairs are in comparator order are in order pairwise |
| Table.AscendingPutsMissingStatusLast | src/components/Table.tsx:63-65 | in ascending order every row with a status precedes every row without one, and ranks never decrease |
| Table.RenderUrl | src/components/Table.tsx:21-36 | a homepage or code value becomes a link to itself iff it is defined and starts with "http"; otherwise the value, possibly undefined, is returned unchanged |
| Table.RenderUrlKeepsText | src/components/Table.tsx:22-35 | the rendered cell always displays the original value |
| Table.RenderUrlExamples | src/components/Table.tsx:23-26 | "https://example.com" becomes a link; "n/a" stays plain |
| Table.StatusColor | src/components/Table.tsx:40-47 | the badge class is empty exactly when there is no status |
| Table.StatusColorInjective | src/components/Table.tsx:40-45 | no two statuses share a class |
| Table.RenderStatus | src/components/Table.tsx:39-52 | the badge carries the status colour and the status literal; both are empty without a status |
| Table.RenderStatusInjective | src/components/Table.tsx:39-52 | a badge identifies its status |
| Table.RenderOs | src/components/Table.tsx:69-87 | an icon is shown iff its token ("macos", "windows", "linux") is a substring of the value; the icons follow Apple, Windows, Linux order with no repeats; at most three; none for an absent value |
| Table.RenderOsExample | src/components/Table.tsx:70-79 | "macos,linux" yields exactly Apple then Linux |
| Table.InitialTableState | src/components/Table.tsx:19-141 | the table starts with one sort key, the name column ascending; only the name header carries an indicator, the Table header's literal " ðŸ”¼" as written; every column uses the text filter and starts unfiltered |
| Header.Title | src/App.tsx:82-90 | a tooltip exists iff the column can sort; it reads "Sort ascending", "Sort descending" or "Clear sort" after the next order |
| Header.TitleDistinguishesOrders | src/App.tsx:84-88 | different next orders get different tooltips |
| Header.SortedDirection | src/App.tsx:96 | a column's direction comes from the first sorting entry for it, and is absent iff no entry names it |
| Header.Indicator | src/App.tsx:93-96 | the arrow is " 🔼" for ascending and " 🔽" for descending, and absent iff the column is unsorted |
| Header.IndicatorDistinguishesDirections | src/App.tsx:93-96 | the indicator reveals the direction |
| Header.TableIndicatorAsWritten | src/components/Table.tsx:138-141 | the Table header's indicator is absent iff the column is unsorted, and otherwise is a space followed by four characters |
| Header.TableIndicatorIsMisdecoded | src/components/Table.tsx:138-141 | each Table arrow literal is the windows-1252 reading of the UTF-8 bytes of the App arrow, and differs from it |
| Encoding.Utf8Encode | src/App.tsx:94-95 | the UTF-8 encoding has the length set by the code point's range, a lead byte and continuation bytes |
| Encoding.Utf8RoundTrip | src/App.tsx:94-95 | decoding the encoding gives the character back |
| Encoding.Cp1252Char | src/components/Table.tsx:139-140 | windows-1252 maps bytes outside 0x80-0x9F to the same code point |
| Encoding.Cp1252RoundTrip | src/components/Table.tsx:139-140 | the windows-1252 decoder is one-to-one |
| Encoding.Cp1252Decode | src/components/Table.tsx:139-140 | decoding yields one character per byte |
| Filter.WidgetFor | src/components/Filter.tsx:7-41 | "range" selects the number pair, "select" the dropdown, anything else, missing metadata included, the text box |
| Filter.SetMin | src/components/Filter.tsx:17 | the Min update sets the lower bound and keeps the upper bound; with no prior pair it gives (v, undefined) |
| Filter.SetMax | src/components/Filter.tsx:24 | the Max update sets the upper bound and keeps the lower bound; with no prior pair it gives (undefined, v) |
| Filter.MinMaxCommute | src/components/Filter.tsx:17-24 | a Min update and a Max update, in either order, give (min, max) |
| Filter.LastUpdateWins | src/components/Filter.tsx:17-24 | repeated updates of one bound keep only the last value |
| Filter.MinShown | src/components/Filter.tsx:16 | the Min input shows the lower bound, or "" when there is none |
| Filter.MaxShown | src/components/Filter.tsx:23 | the Max input shows the upper bound, or "" when there is none |
| Filter.RangeEchoAfterUpdate | src/components/Filter.tsx:16-24 | after an update its input shows the new value and the other input is unchanged |
| Filter.Choose | src/components/Filter.tsx:33 | choosing an option sets the filter to the option's value verbatim |
| Filter.SelectShown | src/components/Filter.tsx:34 | the select's `value` is the filter value itself when set and undefined when unset (the element then shows its first option, All) |
| Filter.SelectOffersFixedChoices | src/components/Filter.tsx:31-39 | the dropdown offers exactly "", complicated, relationship and single, all distinct; none names a status; a chosen option is shown as selected |
| Filter.TextShown | src/components/Filter.tsx:47 | the text box shows the filter value, or "" when unset |
| Filter.SetText | src/components/Filter.tsx:44 | the settled input sets the filter value verbatim |
| Filter.TextEchoRoundTrip | src/components/Filter.tsx:44-47 | the text box shows back exactly the value it set |
| Filter.FilterOf | src/components/Filter.tsx:6 | `getFilterValue`: a column's filter value is that of the first entry for it, and is absent iff no entry names it |
| App.DefaultDataShape | src/App.tsx:21-32 | the data is two records with distinct non-empty names and absolute homepages |
| App.InitialAppState | src/App.tsx:36-50 | the app starts unsorted and unfiltered; no header shows an arrow and every column gets the text filter |
| App.LocalSetMin | src/App.tsx:148 | the local Min update sets the lower bound and keeps the upper one |
| App.LocalSetMax | src/App.tsx:155 | the local Max update sets the upper bound and keeps the lower one |
| App.LocalUpdatersMatchComponent | src/App.tsx:138-181 | the app's copy of the range updaters agrees with the shared component's |

## Left out

- `DebouncedInput` (src/App.tsx:183-208; the component's own `./DebouncedInput` is not part of this model): the 500 ms timer, its cancellation and the local echo state are asynchronous UI behaviour. The model treats the value it eventually passes to `onChange` as the input.
- The table library: row models, default comparison of the other columns, sort stability, the asc/desc/clear click cycle, filter matching and header grouping are external. `getIsSorted` is modelled only as "the first sorting entry for the column". `getNextSortingOrder` and `getCanSort` are parameters.
- No range-membership predicate is modelled. `filterFns` is empty and no code in the app tests a value against `[min, max]`.
- CSV fetching and parsing do not appear in the modelled files; the app uses its hard-coded data.
- `src/main.tsx` and `src/EntryPoint.tsx`: mounting the React root and the analytics provider are I/O and foreign calls.
- JSX markup, CSS and icon components are rendered as abstract values: a class string and a text for the badge, icon tags for the os cell.
- Unknown status strings at runtime: the comparator would compute `NaN` for them. The model takes statuses as `Option<Status>`, as `src/types.ts` types them.
- An empty or otherwise falsy status string cannot occur in `Option<Status>`, so the rank-5 case is the absent status only.
- Filter.MinShown: does not model a non-pair value in a range column, such as a string that JavaScript would index character by character. The widget kind is fixed per column by static metadata, so only the range updaters ever set that column's value.
- Filter.SelectShown: does not model `toString` on a number; the dropdown only ever sets strings.
- Strings.StartsWith, Strings.Includes: JavaScript compares UTF-16 code units, while a Dafny `char` is a Unicode scalar value. For the ASCII patterns used here ("http", "macos", "windows", "linux") the answers agree on every well-formed string, but strings with lone surrogates cannot be represented.
- Filter.SelectOffersFixedChoices: `column.setFilterValue` belongs to the table library and is modelled as direct assignment; the library may instead clear the filter for an empty or undefined value, which matters for the "All" (`""`) option. Filter.TextEchoRoundTrip and Filter.Choose rest on the same assumption.
- Filter.Scalar: numbers are exact reals, with no floating point and no `NaN`.
- App.DefaultData uses the shared `Browser` record; the app's local type lacks `status` and `os`, which are always absent there.

## Findings

| source | as written | input that shows it | evidently intended | confidence | as-written member | corrected member |
|---|---|---|---|---|---|---|
| src/components/Table.tsx:138-141 | the ascending and descending indicators are the four characters U+00F0 U+0178 U+201D U+00BC / U+00BD | wherever `<Table>` is rendered (no shown file renders it): at once on the "name" header, since that column starts sorted ascending | " 🔼" and " 🔽", as in src/App.tsx:93-96; the literals are exactly those arrows' UTF-8 bytes read as windows-1252 | not executed; medium: the file's bytes are the arrows encoded twice, an encoding accident when the file was saved, but no rendered page was observed | Header.TableIndicatorAsWritten (shown by Header.TableIndicatorIsMisdecoded) | Header.Indicator |
