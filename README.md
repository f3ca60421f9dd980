# Taxpayer spreadsheet import, listing parameters and permission guard

A Dafny model of three parts of the taxpayer-registry back end:

- **The spreadsheet import** (`POST /import`). An uploaded workbook is taken as
  already decoded: its first sheet is a header row plus data rows keyed by
  header text. The model covers:
  - the header check against the table of expected fields and their accepted
    spellings (`normalizeHeader`, the missing-field list, the field→spelling
    mapping);
  - the reading of date cells (`parseExcelDate`, `parseDateString`): serial
    numbers of the spreadsheet 1900 date system (serial 25569 is 1970-01-01),
    Date values, and text in four positional layouts;
  - the processing-day count (`calculerNombreJoursTraitement`);
  - the transformation of each row into a taxpayer record and the dropping of
    rows without a NIF (the tax identification number);
  - the skip-duplicate batch insert and the `importedCount`/`totalCount` summary.
- **The list endpoint's parameter logic** (`GET /api/contribuables`): page and
  page size, offset, the date field to filter on, the filter object, the
  Oui/Non and YYYY-MM-DD formatting of rows, and the page count.
- **The permission guard** `checkPermission`: Allow, Unauthorized or Forbidden.

Dates are whole days counted from 1970-01-01 (module `Calendar`), with the
proleptic Gregorian calendar of ECMAScript and no time zone. `Calendar.CivilFromDays`
plays `getFullYear`/`getMonth`/`getDate`. `DateParsing.ConstructChecked` plays
`new Date(y, m, d)` and the check after it: it reads a year 0..99 as
1900..1999, counts the day number with `Calendar.MakeDay` (a day past the
month's end runs on into the next month), and gives no date outside the
time-value range. The JavaScript coercions the code leans on are written out
in `JsText` and `Cells`: `trim`, `parseInt`, `Number`, `String` and `toLowerCase`.
Truthiness is written out there too.

The store is a class (`Store.Store`) holding the inserted records and their key
set. The unique column lives in the database schema, which is not part of
this model, so the key function is a constructor parameter. The current time
(`new Date()`, the default deposit date) is a parameter `now`. The role table
`ROLE_PERMISSIONS` lives in `src/lib/roles`, which is not part of this model,
so it is a parameter of the guard.

The header mapping binds a field to the *spelling from the table* that
matched, not to the header text the sheet carries, and rows are then read by
that spelling. A sheet whose header matches a spelling only after white-space
normalisation therefore passes the header check but reads its column as
absent (`Rows.ShadowedColumnUnread`). The document field's first spelling
has two spaces. So a sheet headed with the single-space "Document demandé"
gets an empty `documents` in every record (`Rows.DocumentColumnUnread`).
The model keeps this behaviour as the code has it.

Behaviour of the code worth noting:
- The yes/no columns are compared after `toLowerCase` only, without trimming.
- `totalCount` counts the kept records, not every row of the sheet.
- The quantity is not clamped at zero: a negative number is kept.
- The header mapping holds the matched spelling, not the sheet's own header.

## Model

| member | source | states |
|---|---|---|
| `DateParsing.ParseDateString` | src/routes/contribuables/importRoutes.ts:51-85 | the loop over the layout tokens assigns day, month and year positionally and returns exactly the specification `DateStringValue` |
| `DateParsing.DateStringSound` | src/routes/contribuables/importRoutes.ts:64-77 | any date returned reproduces the parsed year, month and day, which form a valid calendar date whose year is outside 0..99 |
| `DateParsing.ConstructChecked` | src/routes/contribuables/importRoutes.ts:69-77 | a date is kept iff (year, month, day) is a real calendar date, the year is not one `new Date` remaps (0..99) and the day number is a valid time value; it is then that day |
| `DateParsing.ParseExcelDate` | src/routes/contribuables/importRoutes.ts:20-48 | the cell-reading method returns exactly the specification `ExcelDate` |
| `DateParsing.TryLayouts` | src/routes/contribuables/importRoutes.ts:39-44 | the loop over the layouts returns the first layout's success, or nothing when none parses |
| `DateParsing.ExcelDateCases` | src/routes/contribuables/importRoutes.ts:21-22 | undefined, 0 and "" give no date; a boolean gives none; a Date passes through unchanged; nonempty text goes to the layouts |
| `DateParsing.SerialDates` | src/routes/contribuables/importRoutes.ts:25-27 | serial n is a date iff n is not 0; it is day n − 25569 from 1970-01-01, and consecutive serials are consecutive days |
| `DateParsing.SerialEpoch` | src/routes/contribuables/importRoutes.ts:26 | the day of serial 1 is 1899-12-31 and the day of serial 25569 is 1970-01-01 |
| `DateParsing.FirstOfFour` | src/routes/contribuables/importRoutes.ts:32-42 | the four layouts are tried in declaration order and the first success wins |
| `DateParsing.FourthLayoutRedundant` | src/routes/contribuables/importRoutes.ts:32-37 | yyyy/MM/dd splits into the same tokens as yyyy-MM-dd, so trying it never changes the outcome |
| `DateParsing.SeparatorsInterchangeable` | src/routes/contribuables/importRoutes.ts:53 | replacing a "/" by a "-" changes neither the split nor the parse under any layout |
| `DateParsing.DayFirstWins` | src/routes/contribuables/importRoutes.ts:32-42 | NN/NN/NNNN text naming a real day-first date of the years 100..9999 is read day first ("05/03/2023" is 5 March) |
| `DateParsing.MonthFirstFallback` | src/routes/contribuables/importRoutes.ts:32-42 | when the middle number is 13 or more, day-first fails and month-first reads it ("05/13/2023" is 13 May) |
| `DateParsing.YearFirstText` | src/routes/contribuables/importRoutes.ts:32-42 | yyyy-MM-dd text naming a real date of the years 100..9999 is read year first as that date |
| `DateParsing.DayFirstRejects` | src/routes/contribuables/importRoutes.ts:66 | the day-first layout rejects text whose middle number is 13 or more (month out of range) |
| `DateParsing.YearFirstRejects` | src/routes/contribuables/importRoutes.ts:67 | the year-first layouts reject text whose last number is 100 or more (day out of range) |
| `DateParsing.IsoDateReadsBack` | src/routes/contribuables/contribuableRoutes.ts:96 | the YYYY-MM-DD text the listing prints for a date of the years 100..9999 imports back as the same date |
| `Calendar.CivilFromDays` | src/routes/contribuables/importRoutes.ts:72-76 | the year, month and day read back from a day number form a valid calendar date that maps to that day number |
| `Calendar.CivilOfDay` | src/routes/contribuables/importRoutes.ts:69-76 | building a valid calendar date and reading its fields back gives the same year, month and day |
| `Calendar.MakeDayYearBound` | src/routes/contribuables/importRoutes.ts:69 | a day 1..31 of a month 0..11 never lands beyond the following year |
| `Rows.ProcessingDays` | src/routes/contribuables/importRoutes.ts:88-95 | the count is absent iff either date is absent |
| `Rows.ProcessingDaysSameMonth` | src/routes/contribuables/importRoutes.ts:94 | within a month the count is the difference of the days of the month (2023-01-05 to 2023-01-10 is 5) |
| `Rows.ProcessingDaysAntisymmetric` | src/routes/contribuables/importRoutes.ts:94 | swapping the dates negates the count: it is not clamped and may be negative |
| `Rows.ProcessingDaysAdd` | src/routes/contribuables/importRoutes.ts:94 | counts along a chain of three dates add up |
| `Rows.ProcessingDaysOfSerials` | src/routes/contribuables/importRoutes.ts:221-225 | serial dates k and k + n (both nonzero) give a count of n |
| `Rows.PresentText` | src/routes/contribuables/importRoutes.ts:208 | an undefined cell gives ""; any other gives `Trim(String(cell))`, which has no white space at either end |
| `Rows.TruthyText` | src/routes/contribuables/importRoutes.ts:231 | a falsy cell gives "", a truthy one its trimmed text |
| `Rows.Quantity` | src/routes/contribuables/importRoutes.ts:233 | a cell that is NaN as a number gives 0, any other its numeric value |
| `Rows.Observation` | src/routes/contribuables/importRoutes.ts:239 | the observation is present iff the cell is truthy, and is then the trimmed text of the cell |
| `Rows.Record` | src/routes/contribuables/importRoutes.ts:221-240 | the record carries the NIF it was built with, and its processing-day count is the count between its own arrival and delivery dates |
| `Rows.CellAt` | src/routes/contribuables/importRoutes.ts:208-239 | a mapped field reads the cell under its matched spelling, or `undefined` when the row lacks that key; an unmapped field reads the cell under the key "undefined", or `undefined` when there is none; every value comes from the row |
| `Rows.TransformRow` | src/routes/contribuables/importRoutes.ts:207-240 | a row is kept iff its NIF cell is present and not all white space; a kept record's NIF is the trimmed cell text, nonempty and its own trim |
| `Rows.KeptDefaults` | src/routes/contribuables/importRoutes.ts:221-239 | the deposit date is the parsed one or `now`; arrival and delivery are the dates read from their cells, and the day count is `ProcessingDays` of those two, present iff both are; the quantity is `Quantity` of its cell (0 when not a number); company name, tax centre, documents and observation are their cells' rules |
| `Rows.RecordDefaults` | src/routes/contribuables/importRoutes.ts:221-239 | the same field-by-field reading for the record built with any NIF |
| `Rows.KeptSerialDays` | src/routes/contribuables/importRoutes.ts:221-225 | a kept row whose arrival and delivery cells are the serials k and k + n (both nonzero) records n processing days |
| `Rows.KeptFlags` | src/routes/contribuables/importRoutes.ts:229 | `aJour` and `rejet` are true iff the cell is text spelling "oui" in any case, with no trimming, and false when absent |
| `Rows.RowResults` | src/routes/contribuables/importRoutes.ts:207 | the map gives one outcome per row, in row order |
| `Rows.TransformRows` | src/routes/contribuables/importRoutes.ts:207-241 | the kept records are no more than the rows |
| `Rows.TransformRowsCount` | src/routes/contribuables/importRoutes.ts:241 | the number of kept records is the number of rows with a NIF |
| `Rows.TransformRowsNifs` | src/routes/contribuables/importRoutes.ts:208-214 | every kept record has a nonempty trimmed NIF |
| `Rows.NoneKeptIffNoNif` | src/routes/contribuables/importRoutes.ts:241-246 | nothing is kept iff no row has a NIF |
| `Rows.NonNullFrom` | src/routes/contribuables/importRoutes.ts:241 | every value the null filter keeps is present in its input |
| `Rows.NonNullConcat` | src/routes/contribuables/importRoutes.ts:241 | the null filter of two runs is the filter of the first followed by the filter of the second |
| `Rows.NonNullKeeps` | src/routes/contribuables/importRoutes.ts:241 | every present value is kept, between the kept values before it and those after it |
| `Rows.TransformRowsConcat` | src/routes/contribuables/importRoutes.ts:207-241 | transforming two runs of rows gives the records of the first followed by those of the second |
| `Rows.TransformRowsKeepsRow` | src/routes/contribuables/importRoutes.ts:207-241 | every row with a NIF contributes its record, after those of the rows before it and before those of the rows after it |
| `Rows.ShadowedColumnUnread` | src/routes/contribuables/importRoutes.ts:175-179 | a column whose header matches the first spelling only after normalisation reads as undefined in every row |
| `Rows.DocumentColumnUnread` | src/routes/contribuables/importRoutes.ts:217 | a sheet headed "Document demandé" with one space yields an empty `documents` in every record |
| `Headers.NormalizeIdempotent` | src/routes/contribuables/importRoutes.ts:156 | normalising a header twice is normalising it once |
| `Headers.Normalize` | src/routes/contribuables/importRoutes.ts:156 | the result has no white space at its ends and only single plain spaces inside; a header already of that form is unchanged; `NormalizeRun` and `NormalizeEnds` tie it to the input |
| `Headers.NormalizeRun` | src/routes/contribuables/importRoutes.ts:156 | any run of white space inside a header normalises as a single space would |
| `Headers.NormalizeEnds` | src/routes/contribuables/importRoutes.ts:156 | white space before or after a header does not change its normal form |
| `Headers.WordsNormalize` | src/routes/contribuables/importRoutes.ts:156 | two words without white space, separated by any run of it, normalise to the words joined by one space |
| `Headers.DocumentSpellingsAgree` | src/routes/contribuables/importRoutes.ts:142-146 | "Document  demandé" (two spaces) and "Document demandé" normalise to the same text |
| `Headers.CheckHeaders` | src/routes/contribuables/importRoutes.ts:159-182 | the header loop produces exactly the missing list and mapping of the specification `Resolve` |
| `Headers.MissingFieldsListed` | src/routes/contribuables/importRoutes.ts:166-172 | the missing list is every field none of whose spellings is found, in declaration order |
| `Headers.NoneMissingIffAllFound` | src/routes/contribuables/importRoutes.ts:187 | nothing is missing iff every expected field has a found spelling |
| `Headers.ResolveMapped` | src/routes/contribuables/importRoutes.ts:173-180 | a field is mapped iff one of its spellings is found |
| `Headers.SpellingResolves` | src/routes/contribuables/importRoutes.ts:175-179 | a mapped field is bound to the first found spelling in declaration order |
| `Headers.FirstMatchFound` | src/routes/contribuables/importRoutes.ts:167-177 | `find` is empty iff `some` is false, and otherwise a found spelling of the list |
| `Headers.NoneMissingAllMapped` | src/routes/contribuables/importRoutes.ts:187-208 | once no field is missing, every field is mapped to one of its own spellings |
| `Headers.DocumentResolvesToFirstSpelling` | src/routes/contribuables/importRoutes.ts:142-146 | a single-space "Document demandé" header binds the field to the two-space spelling |
| `Headers.ExpectedHeadersWellFormed` | src/routes/contribuables/importRoutes.ts:134-153 | the table names each field once and has no empty spelling |
| `Store.Store.CreateMany` | src/routes/contribuables/importRoutes.ts:249-252 | stored records are kept as they are, the batch's records with new keys are appended once each, and the count is how many |
| `Store.FreshKeysNew` | src/routes/contribuables/importRoutes.ts:251 | each inserted record comes from the batch, has a key not stored before, and no two share a key |
| `Store.FreshCovers` | src/routes/contribuables/importRoutes.ts:249-252 | after the insert every key of the batch is stored |
| `Store.Fresh` | src/routes/contribuables/importRoutes.ts:249-252 | the insert adds no more records than the batch holds, and only records of the batch |
| `Store.AllPresentInsertsNothing` | src/routes/contribuables/importRoutes.ts:251 | a batch whose keys are all stored inserts nothing |
| `Store.ReimportInsertsNothing` | src/routes/contribuables/importRoutes.ts:249-252 | inserting the same batch a second time inserts nothing |
| `Import.Import` | src/routes/contribuables/importRoutes.ts:98-260 | the route answers each 400 case without writing, and otherwise appends the fresh records and reports their count and the batch size |
| `Import.PrepareImport` | src/routes/contribuables/importRoutes.ts:98-246 | the no-file answer comes iff no file was sent; a successful preparation hands over at least one record, each with a nonempty trimmed NIF |
| `Import.HeadersCheckedFirst` | src/routes/contribuables/importRoutes.ts:187-195 | a sheet with missing fields is refused with the full list and its header row, whatever its rows hold |
| `Import.PreparedRecords` | src/routes/contribuables/importRoutes.ts:197-246 | a successful preparation hands over one record per row with a NIF, in row order, at least one, each with a nonempty trimmed NIF |
| `Import.NoValidRowsIff` | src/routes/contribuables/importRoutes.ts:243-246 | a sheet with all headers and some rows is refused as holding no valid data iff no row has a NIF |
| `Import.ImportSummary` | src/routes/contribuables/importRoutes.ts:255-259 | `importedCount` is at most `totalCount`, which is the number of kept records |
| `Import.ReimportSummary` | src/routes/contribuables/importRoutes.ts:255-259 | importing the same records again reports 0 imported and the same total |
| `Cells.IsOuiExactly` | src/routes/contribuables/importRoutes.ts:229 | `String(cell).toLowerCase() === "oui"` holds iff the cell is text of the three letters o, u, i in any case |
| `Cells.Truthy` | src/routes/contribuables/importRoutes.ts:21 | the falsy cells are exactly undefined, 0, "" and false |
| `Cells.ToJsString` | src/routes/contribuables/importRoutes.ts:208 | `String(cell)` gives text unchanged, "undefined" for an absent cell, and for a number text that `Number` reads back as it |
| `Cells.ToJsNumber` | src/routes/contribuables/importRoutes.ts:233 | `Number(cell)` of a number is that number, and of an absent cell NaN |
| `JsText.Trim` | src/routes/contribuables/importRoutes.ts:208 | the trimmed text is the text less a prefix and a suffix of white space, and has no white space at either end |
| `JsText.ParseInt` | src/routes/contribuables/importRoutes.ts:59-61 | `parseInt(s, 10)` of a nonempty run of digits is its decimal value, and of text without any digit NaN |
| `JsText.StringToNumber` | src/routes/contribuables/contribuableRoutes.ts:11-12 | `Number(s)` of blank text is 0, and of digits with white space around them their decimal value |
| `JsText.SplitDate` | src/routes/contribuables/importRoutes.ts:53 | the split yields at least one piece, and text without "/" or "-" is a single piece |
| `JsText.TrimEmptyIffSpaces` | src/routes/contribuables/importRoutes.ts:208-211 | trimming leaves nothing iff the text is all white space |
| `JsText.IntToStringRoundTrip` | src/routes/contribuables/contribuableRoutes.ts:11 | `Number(String(n))` is n for every integer n |
| `Listing.Page` | src/routes/contribuables/contribuableRoutes.ts:11 | the page is at least 1 |
| `Listing.PageClamped` | src/routes/contribuables/contribuableRoutes.ts:11 | an absent, non-numeric or non-positive page gives 1; a positive one is kept |
| `Listing.PageOfText` | src/routes/contribuables/contribuableRoutes.ts:11 | a page given as its decimal text is that page |
| `Listing.Limit` | src/routes/contribuables/contribuableRoutes.ts:12 | the page size lies in 1..100 |
| `Listing.LimitClamped` | src/routes/contribuables/contribuableRoutes.ts:12 | an absent, non-numeric or zero size gives 10, a negative one 1, one above 100 gives 100, others are kept |
| `Listing.SkipWholePages` | src/routes/contribuables/contribuableRoutes.ts:13 | the offset is a non-negative multiple of the page size, and dividing by the size gives back the page before |
| `Listing.SelectDateField` | src/routes/contribuables/contribuableRoutes.ts:16-27 | an invalid date type is refused with the list of valid types |
| `Listing.DateFieldAccepted` | src/routes/contribuables/contribuableRoutes.ts:16-21 | a type is accepted iff absent, empty or a valid name; absent means the deposit date; a name selects its field |
| `Listing.DateFieldRoundTrip` | src/routes/contribuables/contribuableRoutes.ts:17-19 | each date field's name is valid and selects that field |
| `Listing.PlanRefused` | src/routes/contribuables/contribuableRoutes.ts:21-27 | the request is refused iff the date type is invalid, and the refusal carries the valid types |
| `Listing.PlanInRange` | src/routes/contribuables/contribuableRoutes.ts:11-58 | an accepted request has page ≥ 1, size 1..100, the offset of that page, and its date range on the chosen field |
| `Listing.TextFilter` | src/routes/contribuables/contribuableRoutes.ts:32-43 | a text filter is present iff its parameter is nonempty, and then holds it |
| `Listing.FlagFilter` | src/routes/contribuables/contribuableRoutes.ts:46-47 | a flag filter is present iff its parameter is nonempty, and is true iff it is exactly "true" |
| `Listing.BuildFilters` | src/routes/contribuables/contribuableRoutes.ts:30-58 | each key of the filter object is present iff its parameter is nonempty; the NIF, company-name, tax-centre and document filters carry their parameter; yes/no filters are true iff the text is "true"; the date range lies on the chosen field |
| `Listing.QuantityFilter` | src/routes/contribuables/contribuableRoutes.ts:48-49 | with both quantity bounds only `lte` survives; with one it is that one, holding `Number` of the text; with neither there is no quantity filter |
| `Listing.DateFilter` | src/routes/contribuables/contribuableRoutes.ts:52-57 | the date range is present iff a bound is given, lies on the chosen field and holds exactly the bounds given |
| `Listing.OuiNon` | src/routes/contribuables/contribuableRoutes.ts:101-102 | the import's yes/no rule reads 'Oui'/'Non' back as the original flag |
| `Listing.IsoOf` | src/routes/contribuables/contribuableRoutes.ts:97-99 | an optional date is rendered iff it is present, and then as its `IsoDate` text |
| `Listing.FormatRows` | src/routes/contribuables/contribuableRoutes.ts:93-103 | one formatted row per stored row, in order |
| `Listing.FormattedRow` | src/routes/contribuables/contribuableRoutes.ts:96-102 | flags read back through the import rule; every present date is rendered as its `IsoDate` text, absent ones stay absent |
| `Listing.FormattedDatesReadBack` | src/routes/contribuables/contribuableRoutes.ts:96-99 | for the years 100..9999 every date text of a formatted row reads back through the import's date rule as the stored date |
| `DateText.IsoCivil` | src/routes/contribuables/contribuableRoutes.ts:96 | for years 0..9999 the text is YYYY-MM-DD: four-digit year, dash, two-digit month from 1, dash, two-digit day |
| `DateText.IsoDate` | src/routes/contribuables/contribuableRoutes.ts:96-99 | for the years 0..9999 the text is the four-digit year, the month from 1 and the day of the date's calendar day, joined by dashes |
| `Listing.TotalPages` | src/routes/contribuables/contribuableRoutes.ts:108 | the page count is the least number of pages of the page size that hold all rows |
| `Permissions.CheckPermission` | src/middleware/permissionMiddleware.ts:4-18 | Unauthorized iff there is no user; Allow iff the role has an entry listing the permission |
| `Permissions.NoUserUnauthorized` | src/middleware/permissionMiddleware.ts:6-9 | no user is Unauthorized whatever is required |
| `Permissions.UnknownRoleForbidden` | src/middleware/permissionMiddleware.ts:12-17 | a role without an entry is Forbidden |
| `Permissions.AllowedIffListed` | src/middleware/permissionMiddleware.ts:14-18 | a user passes iff the role's list holds the permission, and is Forbidden otherwise |
| `Permissions.OnlyRoleMatters` | src/middleware/permissionMiddleware.ts:12 | two users with the same role get the same answer |
| `Permissions.MorePermissionsStillAllowed` | src/middleware/permissionMiddleware.ts:12-14 | widening the role table never turns an allowed check into a denied one |

## Left out

- Decoding the workbook bytes (`read`, `sheet_to_json`): a sheet is given as a header row plus rows keyed by header text. Empty cells have no key and header cells are text.
- Writing and removing the temporary upload file, and all logging: file-system and console I/O.
- The generic 500 answer of both routes and its development-only `stack`/`details` fields: they depend on thrown exceptions and the environment.
- Persistence failures: `Store.Store.CreateMany` always succeeds. A storage-level rejection aborting the whole batch is not modelled.
- The database query of the listing (`findMany`, `count`, `skip`/`take`, `orderBy`) and the echo of the query in the answer's `filters`: only the parameters handed to it are modelled.
- The listing's date bounds are kept as the query text that `new Date(String(...))` would read; parsing them into JavaScript dates is not modelled.
- Time zones: `new Date(y, m, d)` builds local midnight while serial dates and `toISOString` use UTC. The model takes every date as a UTC midnight day number, so `differenceInDays` is a difference of day numbers.
- Fractional numbers: cells, serial dates, page and limit values are integers. `Number(text)` is modelled for optionally signed decimal integer literals only; fractions, exponents, hexadecimal and `Infinity` read as NaN.
- `DateParsing.ParseExcelDate`: a serial number more than 100,000,000 days from 1970 gives a date here, where JavaScript gives an Invalid Date.
- `Rows.Quantity`: JavaScript numbers are doubles, while the model's integers are unbounded. A quantity above 2^53 is kept exactly here, where JavaScript rounds it to the nearest double.
- `Cells.ToJsString`: `String(n)` is modelled as the plain decimal digits of n. For |n| of 10^21 or more JavaScript writes exponent notation ("1e+21"), which the model does not.
- `Listing.Page`: a page number above 2^53 is kept exactly here, where `Number(query.page)` rounds it to a double. The page size is clamped to 1..100, so rounding cannot reach `Listing.Limit`.
- `Listing.Skip`: the offset `(page - 1) * limit` is exact here; above 2^53 JavaScript rounds it to a double.
- `toLowerCase` is modelled on ASCII letters only. This is exact for the comparison with "oui", the only place the code uses it.
- `null` cell values: the spreadsheet reader does not produce them for absent cells, so `Cells.Cell` has no null.
