# User table component — verified model

This project models the sequential logic inside the single Angular component
of the demo application (`AngularTest/src/app/app.component.ts`): a table of
user records (name, age, registration date, e-mail, balance) loaded from a JSON
asset, filtered by a free-text box, sorted by column, with a balance-reset
button and a date formatter.

Two modules:

- `JsText` (`js_text.dfy`) — the JavaScript string built-ins the component
  calls, written out: `trim` (the ECMAScript whitespace and line-terminator
  characters), `toLowerCase` over ASCII, `indexOf` (first occurrence, `-1` when
  absent, `0` for the empty pattern), `replace` with a one-character string
  pattern (removes only the FIRST occurrence), and `num + ''` for whole numbers
  together with the value a digit string denotes.
- `AppComponent` (`app_component.dfy`) — the component itself:
  - `User` is a class because the component overwrites `registered` and
    `balance` of each record in place; a field is `Loose<T>`: the text it
    arrived with, or the value after type correction.
  - `UserTable` owns the users and the filter string. `Load` is the
    subscription callback of `getUserData` after the sort: it installs the
    records and runs `CorrectTypes`, the `forEach` body, on each of them in
    place (first space removed from the date text, first comma removed from
    the balance text, then the parsers, which are parameters). `ApplyFilter` stores the trimmed,
    lower-cased filter. `ResetBalance` writes 0 into every balance in place.
  - `FilterPredicate` is the data source's filter predicate on `data.name`.
  - `ZeroPad` is `zeroPad`'s loop, proved against `LeftPad` (the same loop
    written as recursion) via `Padded`, what `zeroPad(num, size)` returns.
  - `FormatDate` is the string assembly of `formatDate`, as a function of the
    six components the shifted `Date` yields (month as the 0-based index that
    `getMonth` returns; the `+ 1` is part of the model).
  - `SortAnnouncement` is the text `announceSortChange` hands to the live
    announcer: Angular's sort direction is `"asc"`, `"desc"` or `""`, and the
    source tests it for truthiness (non-empty).

Two behaviours of the code as written are modelled as they are:

- `replace(',', '')` removes only the first thousands separator, so a
  balance text with two or more separators (`"1,234,567"`) still holds a comma
  when it reaches the number parser (`RemoveFirstCommaExample`).
- `zeroPad` only ever pads, so the year in `formatDate` keeps all of its
  digits even though it is padded with size 2 (`FormatDateFourDigitYear`,
  `ZeroPadWide`); it is never cut down to two digits.

## Model

| member | source | states |
|---|---|---|
| `AppComponent.UserTable.constructor` | AngularTest/src/app/app.component.ts:20-23 | A new component has no users and an empty filter. |
| `AppComponent.UserTable.Load` | AngularTest/src/app/app.component.ts:38-46 | Afterwards the table holds exactly the loaded records, in order; each record's `registered` is the date parser applied to its old text minus the first space, its `balance` the number parser applied to its old text minus the first comma; name, age and e-mail are unchanged; the filter is unchanged. Requires distinct records whose two fields are still text, as the casts to `string` assume. |
| `AppComponent.CorrectTypes` | AngularTest/src/app/app.component.ts:40-44 | For one record: `registered` becomes the date parser applied to the old text minus its first space, `balance` the number parser applied to the old text minus its first comma; name, age and e-mail stay. |
| `AppComponent.UserTable.ApplyFilter` | AngularTest/src/app/app.component.ts:59-62 | The stored filter is the normalised input; nothing else changes. |
| `AppComponent.UserTable.ResetBalance` | AngularTest/src/app/app.component.ts:80-82 | Every user's balance is 0 afterwards; the user list is the same list; name, age, registered and e-mail of every record are unchanged. |
| `AppComponent.FilterPredicate` | AngularTest/src/app/app.component.ts:52-54 | The data source's predicate; a filter it accepts is never longer than the name. Its meaning is given by the three lemmas below. |
| `AppComponent.FilterPredicateMeansSubstring` | AngularTest/src/app/app.component.ts:52-54 | The predicate holds if and only if the lower-cased filter occurs as a contiguous part of the lower-cased name. |
| `AppComponent.EmptyFilterMatchesAll` | AngularTest/src/app/app.component.ts:52-54 | The empty filter matches every name. |
| `AppComponent.FilterPredicateIgnoresCase` | AngularTest/src/app/app.component.ts:52-54 | Lower-casing the name or the filter beforehand does not change the outcome. |
| `AppComponent.CaseVariantMatches` | AngularTest/src/app/app.component.ts:52-54 | A filter that occurs in the name up to ASCII case (each character equal or the upper-case form of the other) is accepted by the predicate. |
| `AppComponent.NormalizeFilter` | AngularTest/src/app/app.component.ts:61 | The stored filter is the lower-cased run of the input that starts at its first non-whitespace character, with only whitespace before and after that run; it has no whitespace at either end, no upper-case ASCII letter, and is no longer than the input. |
| `AppComponent.NormalizeFilterIdempotent` | AngularTest/src/app/app.component.ts:61 | Normalising twice gives the same text as normalising once. |
| `AppComponent.LeftPad` | AngularTest/src/app/app.component.ts:66-68 | The `while` loop as recursion; the result is exactly `size` long when the text was shorter, otherwise exactly as long as the text. |
| `AppComponent.LeftPadShape` | AngularTest/src/app/app.component.ts:66-68 | The padded text has length the larger of the original length and `size`, ends with the original text unchanged and is preceded only by '0' characters; it is the original text when that is already long enough (never truncates). |
| `AppComponent.Padded` | AngularTest/src/app/app.component.ts:64-71 | What `zeroPad(num, size)` returns: at least `size` characters and never shorter than the text of `num`; for a non-negative number a digit string reading back as the number. |
| `AppComponent.ZeroPad` | AngularTest/src/app/app.component.ts:64-71 | The loop returns the decimal text of `num` padded as `LeftPadShape` describes: never shorter than `size`, never truncated. |
| `AppComponent.LeftPadKeepsValue` | AngularTest/src/app/app.component.ts:64-71 | Padding a digit string yields a digit string denoting the same number. |
| `AppComponent.TwoDigitWidth` | AngularTest/src/app/app.component.ts:77 | Any whole number from 0 to 99 pads to exactly two characters with size 2. |
| `AppComponent.TwoDigitField` | AngularTest/src/app/app.component.ts:77 | Any whole number from 0 to 99 pads to two digits that read back as the number. |
| `AppComponent.YearField` | AngularTest/src/app/app.component.ts:77 | A non-negative year pads to at least two digits that read back as the whole year. |
| `AppComponent.DateTimeLayout` | AngularTest/src/app/app.component.ts:77 | The template places two-character fields at offsets 0, 3 and, after the year, 7, 10, 13, with `-`, `-`, ` `, `:`, `:` between them and ` UTC` at the end. |
| `AppComponent.FormatDate` | AngularTest/src/app/app.component.ts:73-78 | The template filled with the six components, each through `zeroPad` with size 2 and the month index plus one; for any inputs the text is at least 21 characters, at least 19 plus the length of the year's text (the year is never cut), and ends in " UTC". |
| `AppComponent.FormatDateLayout` | AngularTest/src/app/app.component.ts:73-78 | For in-range day, month, hour, minute and second and any year (negative years included), the output has the layout `DD-MM-Y.. HH:MM:SS UTC` whose fields are the zero-padded components. |
| `AppComponent.FormatDateFourDigitYear` | AngularTest/src/app/app.component.ts:77 | With a four-digit year the output is 23 characters long and characters 6 to 9 are the year's own four digits. |
| `AppComponent.ZeroPadOneDigit` | AngularTest/src/app/app.component.ts:64-71 | With size 2, a number from 0 to 9 gains exactly one leading '0'. |
| `AppComponent.ZeroPadWide` | AngularTest/src/app/app.component.ts:64-71 | With size 2, a number of 10 or more is returned exactly as written: a four-digit year stays four digits. |
| `AppComponent.SortAnnouncement` | AngularTest/src/app/app.component.ts:89-93 | The message is "Sorting cleared" exactly when the direction is empty; otherwise it is 13 characters longer than the direction and holds the direction between "Sorted " and "ending". |
| `AppComponent.SortAnnouncementInjective` | AngularTest/src/app/app.component.ts:89-93 | Two directions with the same message are the same direction. |
| `AppComponent.SortAnnouncementExamples` | AngularTest/src/app/app.component.ts:89-93 | "asc" gives "Sorted ascending", "desc" gives "Sorted descending", "" gives "Sorting cleared". |
| `JsText.RemoveFirst` | AngularTest/src/app/app.component.ts:42-43 | Without an occurrence of the character the text is unchanged; with one, exactly one character goes. |
| `JsText.RemoveFirstAt` | AngularTest/src/app/app.component.ts:42-43 | With k the index of the first occurrence, the result is the text with index k cut out: everything before k unchanged, everything after it (later occurrences included) kept in order. |
| `JsText.RemoveFirstMultiset` | AngularTest/src/app/app.component.ts:42-43 | Exactly one copy of the character leaves the multiset of characters; every other character stays. |
| `JsText.RemoveFirstCommaExample` | AngularTest/src/app/app.component.ts:43 | "1,234,567" becomes "1234,567": the second separator survives. |
| `JsText.TrimStart` | AngularTest/src/app/app.component.ts:61 | The result is a suffix of the input, everything cut was whitespace, and it does not start with whitespace. |
| `JsText.TrimEnd` | AngularTest/src/app/app.component.ts:61 | The result is a prefix of the input, everything cut was whitespace, and it does not end with whitespace. |
| `JsText.SkipWhitespace` | AngularTest/src/app/app.component.ts:61 | The index reached from `i` is the first one whose character is not whitespace (or the end); everything skipped is whitespace. |
| `JsText.SkipWhitespaceBack` | AngularTest/src/app/app.component.ts:61 | Walking back from `j`, the index reached follows the last character that is not whitespace (or is the lower bound); everything skipped is whitespace. |
| `JsText.Trim` | AngularTest/src/app/app.component.ts:61 | The result is the part of the input that starts at its first non-whitespace character, everything before and after that part is whitespace, and the result neither starts nor ends with whitespace. |
| `JsText.TrimIsBothHalves` | AngularTest/src/app/app.component.ts:61 | Trimming equals cutting the leading whitespace, then the trailing whitespace. |
| `JsText.TrimOfTrimmed` | AngularTest/src/app/app.component.ts:61 | Trimming text with no whitespace at its ends changes nothing. |
| `JsText.Lower` | AngularTest/src/app/app.component.ts:53 | Lower-casing keeps the length, replaces every upper-case ASCII letter by the lower-case letter at the same alphabet position, keeps every other character, and keeps whitespace exactly where it was. |
| `JsText.LowerChar` | AngularTest/src/app/app.component.ts:53 | An upper-case ASCII letter becomes the lower-case letter at the same alphabet position; every other character is kept; so no upper-case letter remains and whitespace stays whitespace. |
| `JsText.LowerIdempotent` | AngularTest/src/app/app.component.ts:53 | Lower-casing twice equals lower-casing once. |
| `JsText.IndexOfFrom` | AngularTest/src/app/app.component.ts:53 | The search returns the first index at or after the start where the pattern occurs, or -1 when it occurs nowhere from there on. |
| `JsText.IndexOf` | AngularTest/src/app/app.component.ts:53 | `indexOf` returns the first index where the pattern occurs, or -1 when it occurs nowhere. |
| `JsText.IndexOfFound` | AngularTest/src/app/app.component.ts:53 | `indexOf` is not -1 if and only if the pattern occurs somewhere. |
| `JsText.NatText` | AngularTest/src/app/app.component.ts:65 | The text of a whole number is a non-empty digit string without leading zero that reads back as the number. |
| `JsText.NatTextWidth` | AngularTest/src/app/app.component.ts:65 | A number from 10^(k-1) to 10^k - 1 has exactly k digits. |
| `JsText.NumberText` | AngularTest/src/app/app.component.ts:65 | `num + ''` for a whole number: for a non-negative number a digit string reading back as the number, for a negative one a minus sign followed by the digits of its magnitude; no leading zero in either case (nor right after the minus sign). |
| `JsText.LeadingZero` | AngularTest/src/app/app.component.ts:67 | Prepending '0' to a digit string keeps its value. |

## Left out

- Load: requires distinct records whose `registered` and `balance` are still text. The source calls `.replace` on whatever the JSON holds; a non-string field throws a `TypeError` there, and a record listed twice would be converted twice (the second `.replace` meets an already converted value). Those error paths are not modelled.
- The HTTP fetch of `/assets/users.json` and the subscription itself: asynchronous I/O; `Load` receives the records the callback gets.
- The `localeCompare` sort of the loaded users (line 39): its order depends on locale rules that are not visible; `Load` takes the records in the order the sort produced.
- `new Date(...)` and `parseFloat` (lines 42-43): date and floating-point parsing; they are the parameters `parseDate` and `parseNumber` of `Load`, and a `Date` is represented by its time value. `NaN` and invalid dates are not modelled.
- The time-zone shift and the component extraction of `formatDate` (line 75): they depend on the host's time zone and on millisecond arithmetic; `FormatDate` takes the six extracted components.
- `num + ''` is modelled for whole numbers only; fractional numbers and the exponent notation of very large numbers are not.
- `toLowerCase` is modelled over ASCII letters only; other Unicode case mappings are not.
- `ngAfterViewInit`, `@ViewChild`, the `MatTableDataSource`/`MatSort` wiring and the data source's own application of the predicate to each row: framework code that is not part of this model.
- `LiveAnnouncer.announce`: a foreign call; only the chosen message is modelled.
- `title` and `displayedColumns`: constants with no behaviour.
