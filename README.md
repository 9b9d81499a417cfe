# epplus_memory_streams helpers, modelled in Dafny

The repository wraps EPPlus spreadsheet generation and the
`Microsoft.IO.RecyclableMemoryStream` pool. The pooling lives in that library;
the repository's own logic is a set of helpers, and this project models them:

- `ExcelExtensions`, in four modules:
  - `ExcelCore`: worksheet names and the chart palette;
  - `ExcelValues`: `TryParseBool` and the `bool` / `bool?` branches of `GetValueEx<T>`;
  - `ExcelValidations`: integer, decimal and text-length validations;
  - `ValidationSheet`: the two list validations, which write their values into a
    validation worksheet.
- `MemoryStreamEventListener`, in `MemoryStreamEvents`: which event source it
  subscribes to, which events it reports, and the message it composes from an
  event's payload.
- `DotNetStrings` gives the .NET string operations these helpers use: `Trim`,
  `IsNullOrWhiteSpace`, ordinal-ignore-case equality, ordinal `StartsWith` and
  `string.Join`. `Wrappers` holds `Option`.

Most helpers are pure and are modelled as functions.

`AddValidationList` and `AddValidationDependentList` change state, so they are
methods with loops:
- the validation worksheet is a class whose `SetText` updates its cells and its
  used columns;
- the caller's `List<string>` is a class whose `Insert` is used;
- each method is proved against a specification function (`FillColumn`,
  `FillColumns`), and the lemmas beside those functions state the layout
  cell by cell.

Library calls become parameters or values:
- `cell.GetValue<T>()` is a `LibraryValue`;
- `{x:F}` rendering and the order on `double` are function parameters;
- the rendering of an exception inside the console line is a parameter;
- the console line itself is a returned value.

## Model

| member | source | states |
|---|---|---|
| DotNetStrings.TrimStart | epplus_memory_streams/Extensions/ExcelExtensions.cs:521 | the result is a suffix of the input, everything dropped is white space, and it does not start with white space |
| DotNetStrings.TrimEnd | epplus_memory_streams/Extensions/ExcelExtensions.cs:521 | the result is a prefix of the input, everything dropped is white space, and it does not end with white space |
| DotNetStrings.Trim | epplus_memory_streams/Extensions/ExcelExtensions.cs:521 | the trimmed text is no longer than the input and neither starts nor ends with white space |
| DotNetStrings.TrimSplits | epplus_memory_streams/Extensions/ExcelExtensions.cs:521 | every text is a white-space prefix, then its trimmed text, then a white-space suffix |
| DotNetStrings.TrimStartSplits | epplus_memory_streams/Extensions/ExcelExtensions.cs:521 | every text is a white-space prefix followed by its `TrimStart` |
| DotNetStrings.TrimEndSplits | epplus_memory_streams/Extensions/ExcelExtensions.cs:521 | every text is its `TrimEnd` followed by a white-space suffix |
| DotNetStrings.TrimStartSkipsWhitePrefix | epplus_memory_streams/Extensions/ExcelExtensions.cs:521 | a white-space prefix does not change `TrimStart` |
| DotNetStrings.TrimEndSkipsWhiteSuffix | epplus_memory_streams/Extensions/ExcelExtensions.cs:521 | a white-space suffix does not change `TrimEnd` |
| DotNetStrings.TrimStartKeepsSuffix | epplus_memory_streams/Extensions/ExcelExtensions.cs:521 | a text that is not all white space keeps whatever follows it through `TrimStart` |
| DotNetStrings.TrimIgnoresPadding | epplus_memory_streams/Extensions/ExcelExtensions.cs:521 | white space added on either side never changes `Trim` |
| DotNetStrings.TrimOfTrimmed | epplus_memory_streams/Extensions/ExcelExtensions.cs:521 | a text with no white space at either end is its own `Trim` |
| DotNetStrings.ToUpperAscii | epplus_memory_streams/Extensions/ExcelExtensions.cs:523 | exactly the lower-case ASCII letters change, each onto its own upper-case partner, and the result is an upper-case letter exactly when the input is an ASCII letter |
| DotNetStrings.ToUpperAsciiIdentifiesPartners | epplus_memory_streams/Extensions/ExcelExtensions.cs:523 | two characters upper-case alike exactly when they are equal or an ASCII lower-case letter and its upper-case partner |
| DotNetStrings.EqualsIgnoreCaseCharwise | epplus_memory_streams/Extensions/ExcelExtensions.cs:523-530 | `OrdinalIgnoreCase` equality holds exactly when the texts have the same length and each pair of characters is equal or a pair of ASCII case partners |
| DotNetStrings.Join | epplus_memory_streams/IO/MemoryStreamEventListener.cs:39 | no parts join to the empty text, one part to itself, and a join starts with its first part |
| DotNetStrings.JoinSnoc | epplus_memory_streams/IO/MemoryStreamEventListener.cs:39 | joining one more part appends the separator and that part |
| ExcelCore.SheetName | epplus_memory_streams/Extensions/ExcelExtensions.cs:138-141 | the name is at most 31 characters; a name that fits is kept; a longer one becomes its first 28 characters and "...", exactly 31 long |
| ExcelCore.SheetNameIdempotent | epplus_memory_streams/Extensions/ExcelExtensions.cs:138-141 | shortening a shortened name changes nothing |
| ExcelCore.LongNamesSharingPrefixCollide | epplus_memory_streams/Extensions/ExcelExtensions.cs:138-141 | two long names with the same first 28 characters receive the same worksheet name |
| ExcelCore.SheetNameCollisionsAreTruncations | epplus_memory_streams/Extensions/ExcelExtensions.cs:138-141 | two different names receive the same worksheet name only if one is shortened and both share their first 28 characters |
| ExcelCore.AddSheet | epplus_memory_streams/Extensions/ExcelExtensions.cs:133-148 | the sheet added has the shortened name, is no copy, and has default column width 25 |
| ExcelCore.AddSheetCopy | epplus_memory_streams/Extensions/ExcelExtensions.cs:150-161 | the sheet added has the shortened name, copies the given sheet, and its column width is left alone |
| ExcelCore.Wrap32 | epplus_memory_streams/Extensions/ExcelExtensions.cs:395 | unchecked `int` arithmetic: the result is a 32-bit value, equal to the input when that fits, and congruent to it modulo 2^32 |
| ExcelCore.Wrap32Sub | epplus_memory_streams/Extensions/ExcelExtensions.cs:395 | wrapping the subtrahend first does not change a wrapped difference |
| ExcelCore.FloorDiv | epplus_memory_streams/Extensions/ExcelExtensions.cs:395 | `(int)Math.Floor((decimal)a / n)` is the floor quotient: `q * n <= a < q * n + n` |
| ExcelCore.PaletteIndex | epplus_memory_streams/Extensions/ExcelExtensions.cs:395 | for every 32-bit index, `index - floor(index / 53) * 53` in wrapping arithmetic lies in [0, 53) and is the floored remainder of the index |
| ExcelCore.SetColor | epplus_memory_streams/Extensions/ExcelExtensions.cs:393-400 | the fill colour is the palette entry at the floored remainder of the index; an index inside the table picks its own entry |
| ExcelCore.SetColorPeriodic | epplus_memory_streams/Extensions/ExcelExtensions.cs:395 | `index` and `index + 53` select the same colour |
| ExcelCore.SetColorNegative | epplus_memory_streams/Extensions/ExcelExtensions.cs:395 | indices -53..-1 count back from the end of the table |
| ExcelCore.PaletteIndexSurvivesOverflow | epplus_memory_streams/Extensions/ExcelExtensions.cs:395 | at `int.MinValue` the product `floor(index / 53) * 53` leaves the 32-bit range, yet the slot is still the floored remainder, 32 |
| ExcelValues.TryParseBool | epplus_memory_streams/Extensions/ExcelExtensions.cs:519-540 | success with `true` exactly when the trimmed text is "yes" or "true" ignoring case; success with `false` exactly when it is "no" or "false"; on failure the result is `false` |
| ExcelValues.TryParseBoolIgnoresPadding | epplus_memory_streams/Extensions/ExcelExtensions.cs:521 | leading and trailing white space never changes the outcome |
| ExcelValues.TryParseBoolAcceptsPaddedWords | epplus_memory_streams/Extensions/ExcelExtensions.cs:519-540 | parsing succeeds exactly on one of the four words, in any case, padded with white space; the result is `true` exactly when that word is yes or true |
| ExcelValues.WordsAreTrimmed | epplus_memory_streams/Extensions/ExcelExtensions.cs:521-530 | the accepted spellings have no white space for `Trim` to remove |
| ExcelValues.TryParseBoolPaddedYes | epplus_memory_streams/Extensions/ExcelExtensions.cs:521-527 | " Yes" followed by a tab parses as `true` |
| ExcelValues.TryParseBoolMixedCaseYes | epplus_memory_streams/Extensions/ExcelExtensions.cs:523-527 | "Yes" parses as `true` |
| ExcelValues.TryParseBoolUpperCaseFalse | epplus_memory_streams/Extensions/ExcelExtensions.cs:530-534 | "FALSE" parses as `false` |
| ExcelValues.TryParseBoolRejectsOthers | epplus_memory_streams/Extensions/ExcelExtensions.cs:537-539 | "y" and the empty text fail, with result `false` |
| ExcelValues.FailureMessage | epplus_memory_streams/Extensions/ExcelExtensions.cs:497 | the wrapping exception's message starts with "Failed to parse " |
| ExcelValues.Fallback | epplus_memory_streams/Extensions/ExcelExtensions.cs:493-498 | a value the library returns is passed through; a library exception becomes the "Failed to parse" failure |
| ExcelValues.GetValueBool | epplus_memory_streams/Extensions/ExcelExtensions.cs:442-499 | `GetValueEx<bool>`: a null cell, a null value and blank text read as `false`; accepted text reads as its parsed value; anything else goes to the library |
| ExcelValues.GetValueNullableBool | epplus_memory_streams/Extensions/ExcelExtensions.cs:442-470 | `GetValueEx<bool?>`: a null cell, a null value and blank text read as null; accepted text reads as its parsed value; anything else goes to the library |
| ExcelValues.BlankTextIsNotABool | epplus_memory_streams/Extensions/ExcelExtensions.cs:481-489 | blank text, which is settled first, would be rejected by `TryParseBool` anyway |
| ExcelValues.SettledCellsIgnoreLibrary | epplus_memory_streams/Extensions/ExcelExtensions.cs:451-491 | for a null value, blank text or accepted text, both branches give the same answer whatever the library would do |
| ExcelValues.BoolIsNullableBoolOrFalse | epplus_memory_streams/Extensions/ExcelExtensions.cs:451-491 | on a locally settled cell, the `bool` branch is the `bool?` branch with null read as `false` |
| ExcelValues.UnsettledTextUsesLibrary | epplus_memory_streams/Extensions/ExcelExtensions.cs:486-498 | text "1" reaches the library: its value when it returns, the wrapped failure when it throws |
| ExcelValues.DigitOneIsUnsettled | epplus_memory_streams/Extensions/ExcelExtensions.cs:481-489 | "1" is neither blank nor accepted by `TryParseBool` |
| ExcelValidations.AddBoundedValidation | epplus_memory_streams/Extensions/ExcelExtensions.cs:786-813 | no rule without bounds; `between` on min and max; `greaterThanOrEqual` on min alone; `lessThanOrEqual` on max alone; each with the error shown and the given message or the default one |
| ExcelValidations.BoundedValidationAcceptsBounds | epplus_memory_streams/Extensions/ExcelExtensions.cs:795-813 | the rule chosen accepts exactly the values that respect every bound given |
| ExcelValidations.DigitChar | epplus_memory_streams/Extensions/ExcelExtensions.cs:800 | a digit 0-9 becomes the character of that digit |
| ExcelValidations.NatDigits | epplus_memory_streams/Extensions/ExcelExtensions.cs:800 | at least one digit, only digits, and no leading zero unless the number is 0 |
| ExcelValidations.DecimalText | epplus_memory_streams/Extensions/ExcelExtensions.cs:800 | `{n:D}`: a minus sign exactly for negative numbers, then only digits |
| ExcelValidations.NatDigitsRoundTrip | epplus_memory_streams/Extensions/ExcelExtensions.cs:800 | reading the digits back gives the number |
| ExcelValidations.DecimalTextRoundTrip | epplus_memory_streams/Extensions/ExcelExtensions.cs:800 | reading `{n:D}` back gives `n`, so the message quotes the bound itself |
| ExcelValidations.AddValidationInteger | epplus_memory_streams/Extensions/ExcelExtensions.cs:784-816 | no rule without bounds; otherwise a whole-number rule with the error shown that admits exactly the integers within the given bounds, and that uses the given message when there is one |
| ExcelValidations.AddValidationDecimal | epplus_memory_streams/Extensions/ExcelExtensions.cs:818-850 | no rule without bounds; otherwise a decimal rule with the error shown that admits exactly the values within the given bounds, and that uses the given message when there is one |
| ExcelValidations.AddValidationTextLength | epplus_memory_streams/Extensions/ExcelExtensions.cs:888-920 | no rule without bounds; otherwise a text-length rule with the error shown that admits exactly the lengths within the given bounds, and that uses the given message when there is one |
| ExcelValidations.IntegerBetweenMessage | epplus_memory_streams/Extensions/ExcelExtensions.cs:800 | bounds 1 and 10 give "The field must be whole number between 1 and 10" |
| ExcelValidations.IntegerLessThanMessage | epplus_memory_streams/Extensions/ExcelExtensions.cs:812 | a maximum of -5 gives "The field must be whole number less than -5" |
| ValidationSheet.Extend | epplus_memory_streams/Extensions/ExcelExtensions.cs:944 | writing a cell grows the used columns to cover its column and keeps the old span inside them |
| ValidationSheet.NextColumn | epplus_memory_streams/Extensions/ExcelExtensions.cs:940 | column 1 on an empty sheet, otherwise the number of used columns plus one |
| ValidationSheet.NextColumnIsFree | epplus_memory_streams/Extensions/ExcelExtensions.cs:940 | when the used range starts in column A, the next column lies right of every used cell |
| ValidationSheet.NextColumnOverlapsOffsetRange | epplus_memory_streams/Extensions/ExcelExtensions.cs:940 | a sheet whose only value is in B1 gets its list written into column B, over that value |
| ValidationSheet.SetCellKeepsValid | epplus_memory_streams/Extensions/ExcelExtensions.cs:944 | setting a cell at a positive row and column keeps the sheet invariant: the used columns are exactly those of the cells |
| ValidationSheet.Worksheet.SetText | epplus_memory_streams/Extensions/ExcelExtensions.cs:623-627 | the cell's value becomes the text and the used columns grow to cover it; nothing else changes |
| ValidationSheet.TextList.Insert | epplus_memory_streams/Extensions/ExcelExtensions.cs:937 | the item is inserted before position `index`, with the rest of the list kept in order |
| ValidationSheet.FillColumnPlace | epplus_memory_streams/Extensions/ExcelExtensions.cs:942-945 | after a column is written, row `firstRow + i` of it holds `texts[i]` and every other cell keeps its value |
| ValidationSheet.FillColumnKeepsValid | epplus_memory_streams/Extensions/ExcelExtensions.cs:942-945 | writing a column at positive positions keeps the sheet invariant |
| ValidationSheet.FillColumnStep | epplus_memory_streams/Extensions/ExcelExtensions.cs:944 | one more `SetText` at the next row extends the column written so far by one row |
| ValidationSheet.EntryColumn | epplus_memory_streams/Extensions/ExcelExtensions.cs:981-994 | a principal's column holds its name first, then " " if the empty choice is allowed, then its dependents |
| ValidationSheet.EntryColumnDependent | epplus_memory_streams/Extensions/ExcelExtensions.cs:990-994 | dependent `j` comes right after the header rows |
| ValidationSheet.FillColumnsStep | epplus_memory_streams/Extensions/ExcelExtensions.cs:979-1000 | filling the next principal's column extends the layout of the earlier ones by one column |
| ValidationSheet.FillColumnsKeepsValid | epplus_memory_streams/Extensions/ExcelExtensions.cs:979-1000 | filling columns from a positive column keeps the sheet invariant |
| ValidationSheet.DependentLayoutPlace | epplus_memory_streams/Extensions/ExcelExtensions.cs:975-1000 | column `start + k` holds entry `k`'s column from row 1 down, so the row counter restarts at 1 for each principal, and every cell outside those runs keeps its value |
| ValidationSheet.DependentLayoutCell | epplus_memory_streams/Extensions/ExcelExtensions.cs:979-1000 | row `r` of entry `k`'s column holds row `r` of that entry's texts |
| ValidationSheet.DependentLayoutOutside | epplus_memory_streams/Extensions/ExcelExtensions.cs:979-1000 | a cell the layout does not write keeps its value |
| ValidationSheet.DependentColumnShape | epplus_memory_streams/Extensions/ExcelExtensions.cs:981-994 | row 1 of column `start + k` holds principal `k`, row 2 holds " " when the empty choice is allowed, and its dependents follow without gaps |
| ValidationSheet.DependentLayoutKeepsOtherColumns | epplus_memory_streams/Extensions/ExcelExtensions.cs:979-1000 | columns left or right of the filled ones are unchanged |
| ValidationSheet.ListKeepsExistingCells | epplus_memory_streams/Extensions/ExcelExtensions.cs:940-945 | on a sheet whose used range starts in column A, every existing value survives `AddValidationList` |
| ValidationSheet.DependentListKeepsExistingCells | epplus_memory_streams/Extensions/ExcelExtensions.cs:975-1000 | on a sheet whose used range starts in column A, every existing value survives `AddValidationDependentList` |
| ValidationSheet.AddValidationList | epplus_memory_streams/Extensions/ExcelExtensions.cs:922-957 | an empty list changes nothing and adds no rule; otherwise the caller's list gets " " at its front when allowed, value `i` goes to row `i + 1` of the next column, the rule lists rows 1..Count of that column with the error shown, and the sheet invariant is kept |
| ValidationSheet.FillPrincipalColumn | epplus_memory_streams/Extensions/ExcelExtensions.cs:981-999 | one pass of the outer loop writes the entry's column texts from row 1 down its column |
| ValidationSheet.FillPrincipalColumns | epplus_memory_streams/Extensions/ExcelExtensions.cs:975-1000 | the loops fill one column per entry from the start column on and end one column past the last |
| ValidationSheet.AddValidationDependentList | epplus_memory_streams/Extensions/ExcelExtensions.cs:959-1019 | no entries change nothing and add no rule; otherwise the sheet gets the dependent layout from the next column, the principal rule lists row 1 across the filled columns, the dependent rule offsets from the first principal cell by `principalColumnIndex - dependentColumnIndex`, and the sheet invariant is kept |
| MemoryStreamEvents.OnEventSourceCreated | epplus_memory_streams/IO/MemoryStreamEventListener.cs:17-28 | only the source named exactly "Microsoft-IO-RecyclableMemoryStream" is enabled, at the verbose level with all keywords and a one-second counter interval |
| MemoryStreamEvents.Compact | epplus_memory_streams/IO/MemoryStreamEventListener.cs:37 | dropping nulls never lengthens the payload |
| MemoryStreamEvents.CompactMembers | epplus_memory_streams/IO/MemoryStreamEventListener.cs:37 | an argument survives exactly when it is a present entry of the payload |
| MemoryStreamEvents.CompactConcat | epplus_memory_streams/IO/MemoryStreamEventListener.cs:37 | nulls are dropped piece by piece, with order kept |
| MemoryStreamEvents.NonNullArgs | epplus_memory_streams/IO/MemoryStreamEventListener.cs:37 | a null payload gives no arguments, and a payload never gives more arguments than entries |
| MemoryStreamEvents.MessageArgs | epplus_memory_streams/IO/MemoryStreamEventListener.cs:39 | filtering stack traces never lengthens the arguments |
| MemoryStreamEvents.MessageArgsMembers | epplus_memory_streams/IO/MemoryStreamEventListener.cs:39 | an argument reaches the message exactly when it is one of the arguments and not a stack trace |
| MemoryStreamEvents.MessageArgsConcat | epplus_memory_streams/IO/MemoryStreamEventListener.cs:39 | stack traces are filtered piece by piece, with order kept |
| MemoryStreamEvents.Texts | epplus_memory_streams/IO/MemoryStreamEventListener.cs:39 | part `i` of the message is the text of argument `i` |
| MemoryStreamEvents.FirstStackTrace | epplus_memory_streams/IO/MemoryStreamEventListener.cs:43 | none exactly when no argument is a stack trace; otherwise the string of a stack-trace argument with none before it |
| MemoryStreamEvents.OnEventWritten | epplus_memory_streams/IO/MemoryStreamEventListener.cs:30-54 | reported exactly when the name is one of the three events; the report carries the name and the message of the present non-stack-trace arguments; exactly a finalized event carries an exception named after the event with the first stack trace |
| MemoryStreamEvents.Line | epplus_memory_streams/IO/MemoryStreamEventListener.cs:47-52 | the line is "[name] message", followed by ", " and the rendered exception exactly when the report carries one |
| MemoryStreamEvents.EventNamesAreCaseSensitive | epplus_memory_streams/IO/MemoryStreamEventListener.cs:10-15 | "memorystreamcreated" is not reported, "MemoryStreamCreated" is |
| MemoryStreamEvents.NullPayloadIsEmpty | epplus_memory_streams/IO/MemoryStreamEventListener.cs:37 | a null payload is reported as an empty one |
| MemoryStreamEvents.NullEntriesAreIgnored | epplus_memory_streams/IO/MemoryStreamEventListener.cs:37 | a null entry anywhere in the payload changes nothing |
| MemoryStreamEvents.MessageHasNoStackTrace | epplus_memory_streams/IO/MemoryStreamEventListener.cs:39 | no part of the message is a stack trace |
| MemoryStreamEvents.StackTraceLeavesMessageUnchanged | epplus_memory_streams/IO/MemoryStreamEventListener.cs:39 | appending a stack-trace argument leaves the message unchanged |
| MemoryStreamEvents.ArgumentExtendsMessage | epplus_memory_streams/IO/MemoryStreamEventListener.cs:39 | appending any other argument appends ", " and its text |
| MemoryStreamEvents.ReportedStackTraceIsInPayload | epplus_memory_streams/IO/MemoryStreamEventListener.cs:41-45 | a reported stack trace is a string entry of the payload and starts with the stack-trace prefix |
| MemoryStreamEvents.FinalizedExample | epplus_memory_streams/IO/MemoryStreamEventListener.cs:37-47 | an id, a null, two stack traces and a size give the message "id, size" and report the first stack trace |
| MemoryStreamEvents.FinalizedExamplePayload | epplus_memory_streams/IO/MemoryStreamEventListener.cs:37 | the example's null entry is dropped and the rest keep their order |
| MemoryStreamEvents.FinalizedExampleParts | epplus_memory_streams/IO/MemoryStreamEventListener.cs:39-43 | the example's message skips both stack traces, and the first one is extracted |

## Left out

- The memory-stream pool (`MemoryStreamManager`) only forwards to the `Microsoft.IO.RecyclableMemoryStreamManager` library. Block reuse, capacity limits and leak detection live in that library and are not part of this model.
- Writing to the console, `EnableEvents` and listener registration are I/O. `OnEventSourceCreated` returns the subscription it would request, and `OnEventWritten` returns the report that `Line` formats.
- MemoryStreamEvents.Line: how `MemoryStreamException` renders itself inside the line is the parameter `showException`, because `Exception.ToString()` is runtime behaviour.
- `MemoryStreamException` (epplus_memory_streams/IO/MemoryStreamException.cs) is modelled only as the data it carries: its message and its optional stack trace.
- DotNetStrings.EqualsIgnoreCase: folds only the ASCII letters, so `OrdinalIgnoreCase` on other letters is not modelled. `TryParseBool` only compares against ASCII words, but a non-ASCII letter that .NET folds onto one of them is not accepted here.
- ExcelCore.SheetName: counts `char`s, which equals .NET's UTF-16 length only for text in the Basic Multilingual Plane.
- `AddSheets` (ExcelExtensions.cs:163-173) is a loop over another workbook's sheets that calls `AddSheet(name, copy)` for each and copies its `Hidden` flag. The workbook's sheet collection is not modelled, so only the `AddSheet` it calls is.
- The EPPlus style, format and column setters are one-line assignments on library objects.
- ExcelValidations.AddValidationDecimal: its `double` bounds, their order and their `{x:F}` rendering are parameters, because floating point and culture-specific formatting are not modelled. NaN is therefore not covered.
- ExcelValidations.DecimalText: uses the invariant culture's digits and minus sign.
- The date validations depend on culture-specific `{x:d}` date formatting of their bounds. The custom-formula validations only build constant formula text; the one `TODAY()` in them is Excel formula text.
- Null arguments, which the C# methods dereference and fail on with a `NullReferenceException`, are not modelled. These are a null `name` in `AddSheet`, a null `values` list or dictionary in the two list validations, and a null `validationSheet` once the list is non-empty. Every such argument is a non-null value or object here.
- ExcelValues.GetValueBool: the library's `GetValue<bool>` and `GetValue<bool?>` are the `LibraryValue` parameter. `TryGetValueEx`, which only catches the resulting exception, is not modelled.
- ExcelValues.UnsettledTextUsesLibrary: states the failure through `FailureMessage` rather than as the spelled-out text.
- ValidationSheet.AddValidationList: `AutoFit` and the text of `FullAddressAbsolute` are library behaviour. The rule records the range's sheet, rows and columns instead of the address text.
- ValidationSheet.AddValidationDependentList:
  - the `OFFSET`/`MATCH`/`COUNTA` formula text is recorded as its parts: the start cell, the principal range and the column offset; the constant 500 row limit inside `COUNTA` is not modelled;
  - the offset `principalColumnIndex - dependentColumnIndex` is computed on unbounded integers, so its 32-bit overflow is not modelled;
  - a null dependent list, which the source would dereference and fail on, is not modelled;
  - null items in `values` or in a dependent list, for which `SetText` would clear the cell's value instead of writing text, are not modelled: every item is a `string`;
  - the dictionary is a sequence of entries in its enumeration order.
- ValidationSheet.Worksheet.SetText: EPPlus's limits of 1,048,576 rows and 16,384 columns are not modelled. The worksheet's `Dimension` is modelled by its columns only, because that is all these methods read. `SetText` does not itself promise the sheet invariant; `SetCellKeepsValid` proves that it keeps it.
