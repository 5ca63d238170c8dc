# rent-history core, modelled in Dafny

This project models the string and list logic of the rent-history tools. Scanned rent-history pages are uploaded to S3. A Lambda function runs Textract on each page and standardizes the tables it finds. Tenants then review the rows in an editable table. Four parts are modelled:

- **Standardizer** (`standardize.ts`). `RsRowParser` peels fields off a joined table row one regular expression at a time: registration year with its "I" flag, apartment status, filing date, legal rent and tenant. The `cleanRows` pass drops header rows and runs the parsers. The `parsedLines` loop regroups OCR line segments into visual lines. Each regular expression is written out as a character-level matcher. Its contract is a declarative description of the match a backtracking engine returns: the leftmost one, with greedy quantifiers. `new Date(y, m - 1, d).toISOString()` is modelled through ECMA-262's `MakeDay`, with day and month rollover and the 0–99 year mapping.
- **Scan-page keys.** The scanner uploads page `n` of history `code` as `code/page<n>.jpg`. Three versions of `getS3ObjectDetails` take such a key apart:
  - SAM stack: Node's `path.basename`/`dirname`, modelled in `NodePath`.
  - Lambda TypeScript: `split("/")` with guards.
  - Plain JavaScript: `split("/")` without guards.

  Each version also builds the JSON key it writes.
- **Editable table** (`EditableTable.tsx`). `emptyLease`, the `updateData`/`addRow`/`removeRow` transforms of the current page, and the pagination index arithmetic.
- **API handlers.**
  - `checkParams` and the decision logic of both presigned-URL functions.
  - The delete-scans function.

  S3 answers and URL signing are inputs to the model: `sign` is a function from commands to URLs, and `listed`/`deleted` are the S3 replies. The delete-scans handler also returns the list of S3 commands it sent.

Modules:
- `Wrappers`, `Strings`.
- `JsDate`, `RowParser`, `Standardize`.
- `NodePath`, `ScanKeys`.
- `Http`, `PresignedUrl`, `LegacyPresignedUrl`, `DeleteScans`.
- `EditableTable`.

Two points where the model is more exact than the informal description of the system:
- **Filing dates.** The stored date is stated for every date token, including rollover (`02/30/2020` becomes `2020-03-01`) and two-digit-year mapping. The plain "same calendar date" property is proved for valid dates with year ≥ 100.
- **Key parsing.** The SAM handler's `dirname`/`basename` split accepts a key with no directory. It gives history code "." and writes its JSON to `./page<n>.json`; see `ScanKeys.PathTopLevelKey`.

## Model

| member | source | states |
|---|---|---|
| `Strings.Trim` | sam/rhTextractStandardizeScanPage-stack/LambdaFunctionFunctionrhTextractStandardizeScanPage/src/standardize.ts:78 | `trim()` returns a slice of the text with only white space or line terminators before and after it, and none at its own ends |
| `Strings.TrimmedAtIsTrim` | sam/rhTextractStandardizeScanPage-stack/LambdaFunctionFunctionrhTextractStandardizeScanPage/src/standardize.ts:78 | any slice with only white space around it and none at its own ends is what `trim()` returns, so the trimmed text is unique |
| `Strings.TrimIdempotent` | sam/rhTextractStandardizeScanPage-stack/LambdaFunctionFunctionrhTextractStandardizeScanPage/src/standardize.ts:78 | trimming an already trimmed row changes nothing |
| `Strings.FirstDigitRun` | sam/rhTextractStandardizeScanPage-stack/LambdaFunctionFunctionrhTextractStandardizeScanPage/src/index.ts:31-34 | the first match of `/(\d+)/g` is the first maximal run of ASCII digits; there is none iff the text has no digit |
| `Strings.FirstDigitsBetween` | sam/rhTextractStandardizeScanPage-stack/LambdaFunctionFunctionrhTextractStandardizeScanPage/src/index.ts:31-34 | in `pre + d + post` with no digit in `pre` and `post` not continuing the run, the page number found is exactly `d` |
| `Strings.Split` | lambda/rhTextractStandardizeScanPage/src/index.ts:24 | `split` on one character gives at least one piece, no piece holds the separator, and joining the pieces gives the key back |
| `Strings.SplitJoin` | lambda/getPresignedURL/src/index.mjs:44 | splitting a comma-joined list of comma-free keys gives the list back |
| `Strings.NatToStringValue` | src/Components/Pages/Scanner/Scanner.tsx:72 | the decimal text a template literal writes for a page number reads back as that number |
| `Strings.NatToStringInjective` | src/Components/Pages/Scanner/Scanner.tsx:72 | different page numbers give different key texts |
| `JsDate.Normalize` | sam/rhTextractStandardizeScanPage-stack/LambdaFunctionFunctionrhTextractStandardizeScanPage/src/standardize.ts:116 | rolling an out-of-range day into neighbouring months yields a valid date with the same day number, and leaves an in-range date alone |
| `JsDate.Construct` | sam/rhTextractStandardizeScanPage-stack/LambdaFunctionFunctionrhTextractStandardizeScanPage/src/standardize.ts:116 | `new Date(y, m, d)` is the valid date whose day number is ECMA-262 `MakeDay(y, m, d)`, month index carrying into the year, years 0–99 read as 19xx |
| `JsDate.ConstructInRange` | sam/rhTextractStandardizeScanPage-stack/LambdaFunctionFunctionrhTextractStandardizeScanPage/src/standardize.ts:116 | a date already in range is constructed unchanged |
| `JsDate.DayNumberInjective` | sam/rhTextractStandardizeScanPage-stack/LambdaFunctionFunctionrhTextractStandardizeScanPage/src/standardize.ts:116 | two valid dates with the same day number are the same date, so the constructed date is unique |
| `JsDate.IsoDatePrefix` | sam/rhTextractStandardizeScanPage-stack/LambdaFunctionFunctionrhTextractStandardizeScanPage/src/standardize.ts:117 | `toISOString().slice(0, 10)` is always ten characters, including the six-digit expanded-year form |
| `JsDate.IsoDateReadsBack` | sam/rhTextractStandardizeScanPage-stack/LambdaFunctionFunctionrhTextractStandardizeScanPage/src/standardize.ts:117 | for a four-digit year the ISO text is `YYYY-MM-DD` and reads back as the same date |
| `RowParser.RemoveMatch` | sam/rhTextractStandardizeScanPage-stack/LambdaFunctionFunctionrhTextractStandardizeScanPage/src/standardize.ts:77-79 | `updateRow` removes the match and trims: the result is the text before the match followed by the text after it, with only white space dropped from the two ends |
| `RowParser.RegYearMatchUnique` | sam/rhTextractStandardizeScanPage-stack/LambdaFunctionFunctionrhTextractStandardizeScanPage/src/standardize.ts:83 | the leftmost-greedy description of `/(\d+)[\s\-(]*(I)?/` fits at most one match |
| `RowParser.MatchRegYear` | sam/rhTextractStandardizeScanPage-stack/LambdaFunctionFunctionrhTextractStandardizeScanPage/src/standardize.ts:83-86 | the matcher returns the engine's match; it finds none iff the row has no digit |
| `RowParser.ParseRegYear` | sam/rhTextractStandardizeScanPage-stack/LambdaFunctionFunctionrhTextractStandardizeScanPage/src/standardize.ts:81-90 | an empty or digit-free row changes nothing, and only `regYear` and `hasI` can change |
| `RowParser.ParseRegYearTakesMatch` | sam/rhTextractStandardizeScanPage-stack/LambdaFunctionFunctionrhTextractStandardizeScanPage/src/standardize.ts:83-88 | given the engine's match, `regYear` is its digits, `hasI` is "true" iff the `I` was matched, and the match is cut out and the row trimmed |
| `RowParser.FindAptStat` | sam/rhTextractStandardizeScanPage-stack/LambdaFunctionFunctionrhTextractStandardizeScanPage/src/standardize.ts:95-96 | finds the leftmost `RS` or `VA`, and is the only position that can be |
| `RowParser.ParseAptStat` | sam/rhTextractStandardizeScanPage-stack/LambdaFunctionFunctionrhTextractStandardizeScanPage/src/standardize.ts:93-101 | the leftmost `RS`/`VA`, whole word or not, becomes `aptStat` and is cut out; no match or an empty row changes nothing; other fields kept |
| `RowParser.FindFilingToken` | sam/rhTextractStandardizeScanPage-stack/LambdaFunctionFunctionrhTextractStandardizeScanPage/src/standardize.ts:106-107 | finds the leftmost `NC` or `dd/dd/dddd`, and is the only position that can be |
| `RowParser.NormalizeCalendarDate` | sam/rhTextractStandardizeScanPage-stack/LambdaFunctionFunctionrhTextractStandardizeScanPage/src/standardize.ts:113-117 | a real calendar date with year ≥ 100 is stored as the same digits in year-month-day order |
| `RowParser.CalendarDateTokenIso` | sam/rhTextractStandardizeScanPage-stack/LambdaFunctionFunctionrhTextractStandardizeScanPage/src/standardize.ts:113-117 | the same, for a date token in the row |
| `RowParser.ParseFilingDate` | sam/rhTextractStandardizeScanPage-stack/LambdaFunctionFunctionrhTextractStandardizeScanPage/src/standardize.ts:104-120 | leftmost token: `NC` stored verbatim, a date stored as `new Date` renders it (the same date for valid ones); the token is cut out; no token or empty row changes nothing |
| `RowParser.MatchLegalRent` | sam/rhTextractStandardizeScanPage-stack/LambdaFunctionFunctionrhTextractStandardizeScanPage/src/standardize.ts:139-140 | the anchored match uses the longest digit prefix that lets any non-line-terminator, two digits and a word boundary follow; none iff no prefix works |
| `RowParser.ParseLegalRent` | sam/rhTextractStandardizeScanPage-stack/LambdaFunctionFunctionrhTextractStandardizeScanPage/src/standardize.ts:137-145 | an empty row or one with no rent at its start changes nothing; only `legalRent` can change; a change stores at least three characters and shortens the row by as many |
| `RowParser.MatchLegalRentIsLongest` | sam/rhTextractStandardizeScanPage-stack/LambdaFunctionFunctionrhTextractStandardizeScanPage/src/standardize.ts:139-140 | whenever a longest rent match exists, the matcher returns exactly it |
| `RowParser.ParseLegalRentTakesLongest` | sam/rhTextractStandardizeScanPage-stack/LambdaFunctionFunctionrhTextractStandardizeScanPage/src/standardize.ts:139-143 | with a rent at the start, the engine's match is stored as `legalRent` and cut off the front |
| `RowParser.TenantMatchAtSound` | sam/rhTextractStandardizeScanPage-stack/LambdaFunctionFunctionrhTextractStandardizeScanPage/src/standardize.ts:128 | a tenant match is the label, then only white space and whole name words, at least one word, no word running into a digit, ending where no further word can be added |
| `RowParser.TenantMatchAtComplete` | sam/rhTextractStandardizeScanPage-stack/LambdaFunctionFunctionrhTextractStandardizeScanPage/src/standardize.ts:128 | every end the match description admits is the end the matcher returns, so a start has at most one match |
| `RowParser.TenantMatchAtIff` | sam/rhTextractStandardizeScanPage-stack/LambdaFunctionFunctionrhTextractStandardizeScanPage/src/standardize.ts:128 | a tenant match starts at a position exactly when the description admits one there |
| `RowParser.FindTenant` | sam/rhTextractStandardizeScanPage-stack/LambdaFunctionFunctionrhTextractStandardizeScanPage/src/standardize.ts:128-129 | the tenant match starts at the leftmost position where one can start |
| `RowParser.ParseTenant` | sam/rhTextractStandardizeScanPage-stack/LambdaFunctionFunctionrhTextractStandardizeScanPage/src/standardize.ts:126-134 | the leftmost tenant match becomes `tenant` and is cut out; no match or an empty row changes nothing |
| `RowParser.ParseTenantTakesFirstMatch` | sam/rhTextractStandardizeScanPage-stack/LambdaFunctionFunctionrhTextractStandardizeScanPage/src/standardize.ts:126-134 | when the description admits a match and none starts earlier, `parseTenant` stores and cuts exactly that match |
| `RowParser.ParseRow` | sam/rhTextractStandardizeScanPage-stack/LambdaFunctionFunctionrhTextractStandardizeScanPage/src/standardize.ts:158-165 | the pipeline never fills `tenant`; `regYear` is the first digit run of the joined row and `hasI` is "true"/"false" exactly when one exists |
| `Standardize.IsHeaderText` | sam/rhTextractStandardizeScanPage-stack/LambdaFunctionFunctionrhTextractStandardizeScanPage/src/standardize.ts:152 | `/^(reg)|(year)/i` matches iff the text starts with "reg" or contains "year" anywhere, ignoring ASCII case |
| `Standardize.KeepRow` | sam/rhTextractStandardizeScanPage-stack/LambdaFunctionFunctionrhTextractStandardizeScanPage/src/standardize.ts:150-153 | a row survives iff it has a first cell whose text neither starts with "reg" nor contains "year" |
| `Standardize.HeaderWordDropped` | sam/rhTextractStandardizeScanPage-stack/LambdaFunctionFunctionrhTextractStandardizeScanPage/src/standardize.ts:152 | any first cell containing "YeAr" is dropped, whatever surrounds it |
| `Standardize.JoinCellsStart` | sam/rhTextractStandardizeScanPage-stack/LambdaFunctionFunctionrhTextractStandardizeScanPage/src/standardize.ts:156 | the joined row starts with the first cell's text, followed by a space when more cells come |
| `Standardize.RegYearFromFirstCell` | sam/rhTextractStandardizeScanPage-stack/LambdaFunctionFunctionrhTextractStandardizeScanPage/src/standardize.ts:156-160 | when the first cell holds a digit, the row's `regYear` is that cell's first digit run; later cells cannot lengthen it |
| `Standardize.KeptPositions` | sam/rhTextractStandardizeScanPage-stack/LambdaFunctionFunctionrhTextractStandardizeScanPage/src/standardize.ts:150-153 | the filter keeps exactly the rows `KeepRow` accepts, in their original order |
| `Standardize.CleanRows` | sam/rhTextractStandardizeScanPage-stack/LambdaFunctionFunctionrhTextractStandardizeScanPage/src/standardize.ts:148-166 | no table is a TypeError; otherwise one parsed row per kept row of the first table, in order, each the pipeline applied to its joined cells |
| `Standardize.FlattenExtendLast` | sam/rhTextractStandardizeScanPage-stack/LambdaFunctionFunctionrhTextractStandardizeScanPage/src/standardize.ts:177 | pushing onto the last group extends the concatenation by that one segment |
| `Standardize.GroupPrefixShape` | sam/rhTextractStandardizeScanPage-stack/LambdaFunctionFunctionrhTextractStandardizeScanPage/src/standardize.ts:173-181 | after any number of segments the groups concatenate to those segments, rise strictly in `left`, break exactly where `left` fails to increase, and end with the last segment seen |
| `Standardize.GroupLines` | sam/rhTextractStandardizeScanPage-stack/LambdaFunctionFunctionrhTextractStandardizeScanPage/src/standardize.ts:171-181 | the loop computes the reference grouping; the groups concatenate to the input lines; each is non-empty and strictly increasing in `left`; each new group starts where `left` fails to increase; no groups iff no lines |
| `NodePath.Basename` | sam/rhTextractStandardizeScanPage-stack/LambdaFunctionFunctionrhTextractStandardizeScanPage/src/index.ts:26 | the basename holds no slash, is empty iff the path is all slashes, and sits at the start or after a slash with only slashes after it |
| `NodePath.BasenameIsLastSegment` | sam/rhTextractStandardizeScanPage-stack/LambdaFunctionFunctionrhTextractStandardizeScanPage/src/index.ts:26 | any non-empty slash-free segment at the start or after a slash, followed only by slashes, is the basename |
| `NodePath.Dirname` | sam/rhTextractStandardizeScanPage-stack/LambdaFunctionFunctionrhTextractStandardizeScanPage/src/index.ts:27 | the dirname is never empty; it is "." for the empty path and "/" for an all-slash one; otherwise, with the last segment starting at `s` (trailing slashes ignored), it is "." or "/" when `s <= 1` (by the first character), "//" when `s == 2` after a leading slash, and the path before the slash at `s - 1` otherwise |
| `NodePath.BasenameOfJoin` | sam/rhTextractStandardizeScanPage-stack/LambdaFunctionFunctionrhTextractStandardizeScanPage/src/index.ts:26 | the basename of `dir/name` is `name` |
| `NodePath.DirnameOfJoin` | sam/rhTextractStandardizeScanPage-stack/LambdaFunctionFunctionrhTextractStandardizeScanPage/src/index.ts:27 | the dirname of `dir/name` is `dir` for any non-empty `dir` other than "/" |
| `NodePath.DirnameOfSegment` | sam/rhTextractStandardizeScanPage-stack/LambdaFunctionFunctionrhTextractStandardizeScanPage/src/index.ts:27-28 | a key without a slash has dirname "." |
| `NodePath.BasenameOfSegment` | sam/rhTextractStandardizeScanPage-stack/LambdaFunctionFunctionrhTextractStandardizeScanPage/src/index.ts:28 | a slash-free history code is its own basename |
| `ScanKeys.PageFileDigits` | src/Components/Pages/Scanner/Scanner.tsx:72 | the page number read from `page<n>.jpg` is the decimal text of `n`, and the file name holds no slash |
| `ScanKeys.PathObjectDetails` | sam/rhTextractStandardizeScanPage-stack/LambdaFunctionFunctionrhTextractStandardizeScanPage/src/index.ts:22-38 | no record throws "No record in event"; an all-slash key or directory throws the history-code error; no digit in the file name throws the format error; success exactly when none of these holds; on success the file name is the key's last segment, the history code the last segment of the directory part, and the page number the file name's first digit run |
| `ScanKeys.PathScannerRoundTrip` | sam/rhTextractStandardizeScanPage-stack/LambdaFunctionFunctionrhTextractStandardizeScanPage/src/index.ts:26-34 | the scanner key `code/page<n>.jpg` parses back to history code `code` and page `n`; both JSON keys sit in `code/` |
| `ScanKeys.PathTopLevelKey` | sam/rhTextractStandardizeScanPage-stack/LambdaFunctionFunctionrhTextractStandardizeScanPage/src/index.ts:27-29 | a key without a directory passes the guard with history code "." and JSON key `./page<n>.json` |
| `ScanKeys.FirstTwoSegments` | lambda/rhTextractStandardizeScanPage/src/index.ts:24 | destructuring `key.split("/")` gives the text before the first slash and, iff there is a slash, the text up to the next one |
| `ScanKeys.SplitObjectDetails` | lambda/rhTextractStandardizeScanPage/src/index.ts:20-34 | no record throws; the history-code error exactly when the first segment or the second is empty or missing; the format error exactly when both are present and non-empty but the file name has no digit; success exactly when neither holds, giving the first two segments and the file name's first digit run as page number; later segments ignored |
| `ScanKeys.SplitScannerRoundTrip` | lambda/rhTextractStandardizeScanPage/src/index.ts:24-30 | the scanner key parses back to `code` and `n`, and the JSON key is `code/page<n>.json` |
| `ScanKeys.UnguardedObjectDetails` | lambda/rhTextractStandardizeScanPage/index.mjs:12-20 | without guards, a missing record, a missing second segment or a digit-free file name is a TypeError, and nothing else fails; on success the history code and file name are the key's first two `/`-segments, possibly empty, at their places in the key, and the page number is the file name's first digit run |
| `ScanKeys.UnguardedEmptyCode` | lambda/rhTextractStandardizeScanPage/index.mjs:15-16 | every key with a leading slash and a digit in its second segment passes the unguarded version with an empty history code, and the guarded version refuses it |
| `ScanKeys.UnguardedAgreesWhenGuardedSucceeds` | lambda/rhTextractStandardizeScanPage/index.mjs:15-16 | wherever the guarded version succeeds the unguarded one returns the same details |
| `ScanKeys.GuardedAgreesWhenCodePresent` | lambda/rhTextractStandardizeScanPage/src/index.ts:24-30 | wherever the unguarded version succeeds with a non-empty history code, the guarded one agrees |
| `ScanKeys.LeadingSlashKey` | lambda/rhTextractStandardizeScanPage/index.mjs:15-16 | `/page<n>.jpg` passes the unguarded version with an empty history code and JSON key `/page<n>.json`; the guarded version refuses it |
| `Http.CheckParams` | lambda/getPresignedURL/src/index.mjs:15-40 | missing keys give 400 "Missing key parameter" even when the method is also bad; else a method other than exactly "GET"/"PUT" gives 400; else the handler proceeds |
| `Http.SignAll` | lambda/getPresignedURL/src/index.mjs:53-60 | one `{key, url}` per key, in order, signed with a Get command for "GET" and a Put command otherwise |
| `PresignedUrl.Handle` | lambda/getPresignedURL/src/index.mjs:42-70 | no parameters or no `key` is a TypeError (the missing-key 400 cannot happen); a bad method is 400; otherwise 200 with one signed URL per comma-separated key, in order |
| `PresignedUrl.RequestedKeysAnswered` | lambda/getPresignedURL/src/index.mjs:44-60 | comma-joined comma-free keys come back as exactly those keys, each with its URL |
| `PresignedUrl.LowerCaseMethodRejected` | lambda/getPresignedURL/src/index.mjs:28 | the method comparison is case-sensitive: "get" is a 400 |
| `PresignedUrl.EmptyKeyIsOneKey` | lambda/getPresignedURL/src/index.mjs:44 | an empty `key` is one empty key: 200 with a URL for "" |
| `LegacyPresignedUrl.PutUrlsAsWritten` | lambda/rhTextractStandardizeScanPage/getPresignedURL/index.mjs:56-61 | as written, the upload branch yields URLs only for an empty key list, and fails with a ReferenceError otherwise |
| `LegacyPresignedUrl.Handle` | lambda/rhTextractStandardizeScanPage/getPresignedURL/index.mjs:38-74 | a TypeError exactly when a parameter set is missing, and no error but that and the ReferenceError; missing keys are 400; a bad method is 400 with its message; a PUT for any key is a ReferenceError; a GET answers one URL per key in order; every other status is 400 |
| `LegacyPresignedUrl.HandleCorrected` | lambda/rhTextractStandardizeScanPage/getPresignedURL/index.mjs:38-74 | with the upload branch returning the URL it signed: 200 iff keys present and method supported, with one URL per key, in order, for the right command |
| `LegacyPresignedUrl.UploadRequestFails` | lambda/rhTextractStandardizeScanPage/getPresignedURL/index.mjs:56-61 | the one-key upload request the app sends fails as written and gets its Put URL when corrected |
| `LegacyPresignedUrl.DownloadsUnchanged` | lambda/rhTextractStandardizeScanPage/getPresignedURL/index.mjs:50-55 | the correction changes nothing for downloads |
| `LegacyPresignedUrl.CorrectedMatchesCommaSeparated` | lambda/rhTextractStandardizeScanPage/getPresignedURL/index.mjs:40 | repeated `key` parameters are answered as the newer function answers the same keys comma-joined |
| `DeleteScans.CheckParams` | lambda/rhDeleteScans/src/index.mjs:12-25 | an absent or empty history code, and only that, is 400 "Missing history_code parameter" |
| `DeleteScans.Handle` | lambda/rhDeleteScans/src/index.mjs:27-73 | no S3 call on a 400; the listing asks for prefix `code/`; an absent or empty listing is 404 after the listing alone; otherwise one delete of exactly the listed keys in order, then 200 with the deleted count, or a TypeError when the count is absent |
| `DeleteScans.PrefixesDisjoint` | lambda/rhDeleteScans/src/index.mjs:36 | the trailing slash keeps folders apart: no key lies under two different slash-free codes |
| `DeleteScans.DeletesOnlyOwnScans` | lambda/rhDeleteScans/src/index.mjs:34-62 | if the listing honours the prefix, no deleted key belongs to another history |
| `DeleteScans.SuccessMessageCount` | lambda/rhDeleteScans/src/index.mjs:66-71 | the first number in the success message is the number of deleted objects |
| `EditableTable.EmptyLease` | src/Components/EditableTable/EditableTable.tsx:23-33 | all nine columns present, rents 0, status "RS", other text columns empty |
| `EditableTable.EditCurrentPage` | src/Components/EditableTable/EditableTable.tsx:219-230 | only the current page is transformed; page count and every other page unchanged |
| `EditableTable.UpdateRow` | src/Components/EditableTable/EditableTable.tsx:222-227 | only the row at `rowIndex` changes, and in it only `columnId`, which now holds the value |
| `EditableTable.SpliceStart` | src/Components/EditableTable/EditableTable.tsx:242 | `splice` start clamps to the array and counts negatives from the end |
| `EditableTable.InsertRow` | src/Components/EditableTable/EditableTable.tsx:238-243 | one more row: appended when no index; inserted after row `i`, with rows up to `i` fixed and later rows shifted by one |
| `EditableTable.DropRow` | src/Components/EditableTable/EditableTable.tsx:253 | the index filter drops exactly the element at `rowIndex`; an index naming no row changes nothing |
| `EditableTable.CurrentPageData` | src/Components/EditableTable/EditableTable.tsx:208 | the current page, or [] when the index names no page |
| `EditableTable.UpdateData` | src/Components/EditableTable/EditableTable.tsx:218-232 | the current page gets `UpdateRow`; other pages, page count and index unchanged |
| `EditableTable.AddRow` | src/Components/EditableTable/EditableTable.tsx:233-248 | the current page gets `InsertRow`; other pages, page count and index unchanged |
| `EditableTable.RemoveRow` | src/Components/EditableTable/EditableTable.tsx:249-258 | the current page gets `DropRow`; other pages, page count and index unchanged |
| `EditableTable.RemoveUndoesAdd` | src/Components/EditableTable/EditableTable.tsx:241-253 | inserting after row `i` then removing row `i + 1` restores the table |
| `EditableTable.RemoveUndoesAppend` | src/Components/EditableTable/EditableTable.tsx:238-253 | appending then removing the last row restores the table |
| `EditableTable.GoToFirstPage` | src/Components/EditableTable/EditableTable.tsx:266 | with at least one page, the index is valid and there is no previous page |
| `EditableTable.GoToPreviousPage` | src/Components/EditableTable/EditableTable.tsx:263-267 | the index drops by one iff `canPreviousPage`, else becomes 0; a valid index stays valid |
| `EditableTable.GoToNextPage` | src/Components/EditableTable/EditableTable.tsx:264-269 | the index rises by one iff `canNextPage`, else becomes the last page; a valid index stays valid |
| `EditableTable.GoToLastPage` | src/Components/EditableTable/EditableTable.tsx:270 | the last page, with no next page; with no pages the index is -1 and the page data is [] |
| `EditableTable.NextThenPrevious` | src/Components/EditableTable/EditableTable.tsx:267-269 | stepping forward then back returns to the same page when a next page exists |
| `EditableTable.ValidPreserved` | src/Components/EditableTable/EditableTable.tsx:218-270 | every edit and every navigation keeps a valid page index valid |

## Left out

- File reading, JSON parsing and `console.log` in the standardizer script, and the `test.ts` driver: these are I/O.
- The `RhTable` class that `test.ts` imports is not part of this model. It is not defined in the `standardize.ts` shown. The column resolver and `CleanRow` extractors exist only as types there.
- Textract and S3 calls, `parseTable`/`parseRentHistoryTables` and the JSON writes. These are foreign calls. The S3 answers and URL signing are parameters. `Promise.all` is an order-preserving map.
- React rendering, hooks and effects, the scanner SDKs, routing, i18n, faker data (`makeData`/`newLease`) and the `fetch` wrappers in `src/api`. These are UI and library code.
- Dates: the local time zone is assumed to be UTC. `standardize.ts` reads a fixed local file when it loads (standardize.ts:40-46), so it runs as a script wherever it is started. In a zone east of UTC, `new Date(y, m - 1, d).toISOString()` falls on the previous day, so the stored `filingDate` would be one day earlier than the model's. Years outside ±271821 cannot occur, since every date token has four digits, so the `RangeError` of `toISOString` is not modelled.
- `Standardize.GroupLines`: `left` is a real number. NaN coordinates are not modelled; with NaN the comparison is false and a new group starts.
- Cell and line coordinates and confidences are carried as reals. Nothing computes with them beyond that one comparison.
- S3 object keys are taken as delivered. The URL-encoding of keys in S3 notifications is not modelled; none of the handlers decodes it.
- Query parameters are modelled as the values API Gateway delivers. How repeated parameters collapse into `queryStringParameters` is not modelled.
- Strings are sequences of Unicode code points, not of UTF-16 code units. Outside the Basic Multilingual Plane the two differ: the unescaped `.` of the legal-rent pattern takes one code point, where JavaScript takes one surrogate half, and so does every length and index. The rows are OCR text, where such characters are not expected.
- `RowParser.ParseFilingDate`: its guard `!month \|\| !day \|\| !year` is not modelled as a separate branch. The three pieces of a matched date token are never empty, so the guard cannot fire.

## Findings

| source | as written | input that shows it | evidently intended | confidence | as-written member | corrected member |
|---|---|---|---|---|---|---|
| lambda/rhTextractStandardizeScanPage/getPresignedURL/index.mjs:57-61 | the PUT callback returns `{key, url}`, but only `uploadURL` is bound, so evaluating `url` throws a ReferenceError and `Promise.all` rejects | `method=PUT&key=abc/page1.jpg` (the request the app's upload sends) | return the signed upload URL as `url` | high, not executed | `LegacyPresignedUrl.Handle` | `LegacyPresignedUrl.HandleCorrected` |
