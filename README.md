# mp3-pwa bulk downloader — a Dafny model of its core

The page reads a list of track numbers from `tracks.csv`. It downloads each
track's MP3 from `http://5fi.sh/<number>-001.mp3` into an IndexedDB store
("audio-db", store "tracks", keyed by `url`), and can later pack the stored
files into a ZIP archive. This project models the four pieces that carry logic:

- `csv.dfy` (module `Csv`): `parseCsv`. It splits lines at `\r?\n`, trims them,
  drops blank lines, drops an optional `tnumber`/`t_number`/`t` header and
  keeps the first comma field of each line.
- `db.dfy` (module `TrackDb`): the track table. It is a `TrackStore` class
  over a `map<string, TrackRow>` with `SaveTrack` (put, insert or overwrite)
  and `GetTrack` (get, `None` for a missing key). Its constructor `Open`
  creates the "tracks" store only when the database has none.
- `downloader.ts` → `downloader.dfy` (module `Downloader`): `makeMp3Url` and
  the `downloadAll` loop. The loop fetches every track in order, saves the
  successes, and produces exactly one progress event per item with a `done`
  counter that counts up.
- `zipExport.ts` → `zip_export.dfy` (module `ZipExport`): `getFileNameFromUrl`
  and the `exportZipFromIndexedDb` loop. The loop reads every url back,
  reports the missing ones as "Not found in IndexedDB", and records one
  `zip.file(name, blob)` call per url that was found.

Support modules:
- `text.dfy` (`Text`): the JavaScript string primitives used: `trim`,
  one-character `split`, `join`, ASCII `toLowerCase`, and the decimal
  rendering of a number.
- `progress.dfy` (`Progress`): the event record shared by both loops, and the
  one-event-per-item counting discipline.
- `wrappers.dfy` (`Wrappers`): `Option`.

The network, the clock and the store's transaction outcome are inputs.
`DownloadAll` takes one `ItemEnv` per track number. Each `ItemEnv` holds what
`fetch`/`res.blob()` produced (a response with status and body, or a thrown
error message), whether the readwrite transaction errored (and with which
message), and the `Date.now()` value. Progress callbacks are modelled as the
returned sequence of events, in the order the callback would see them. Both
loops are proved against specification functions (`DownloadEvents`/`StoreAfter`,
`ExportEvents`/`ExportEntries`), and the lemmas state the promised properties
of those functions.

Notes on the source:
- The url template uses `http://` (src/downloader.ts:14); the page text and a
  comment show `https://` (src/BulkDownloader.tsx:123, src/zipExport.ts:5).
- The error the export itself raises is "Not found in IndexedDB". It is raised when
  there is no row or the row has no `blob` field (`!row?.blob`). An empty Blob
  object is truthy, so an empty payload is NOT reported as missing.
- The page calls the export with the archive name "tgn-mp3-library.zip". The
  function's default, "mp3-library.zip", only matters for the save step,
  which is not modelled.
- `zip.file` with a name already present replaces that file (`ZipFiles`), so
  two urls with the same last segment give one file.

Whitespace for `trim` is the full ECMAScript WhiteSpace and LineTerminator
set, given by code point (`Text.IsSpace`). `toLowerCase` is modelled on ASCII
letters only. No non-ASCII character lower-cases to a letter of `tnumber`,
`t_number` or `t`, so the header test is decided the same way.

## Model

| member | source | states |
|---|---|---|
| `Text.Trim` | src/downloader.ts:13 | the result has no whitespace at either end and is no longer than the input |
| `Text.TrimOfTrimmed` | src/BulkDownloader.tsx:16 | a string with no whitespace at either end is its own trim |
| `Text.TrimIdempotent` | src/downloader.ts:13 | trimming twice is trimming once |
| `Text.TrimPadded` | src/BulkDownloader.tsx:10 | whitespace added at either end of a string is removed again by `trim` |
| `Text.TrimEmptyIffAllSpace` | src/BulkDownloader.tsx:10-11 | a line trims to the empty string (and is filtered out) exactly when it is all whitespace |
| `Text.Split` | src/zipExport.ts:6 | `split` on one character gives at least one piece and no piece contains the separator |
| `Text.JoinSplit` | src/zipExport.ts:6 | joining the pieces of a split with the separator gives back the input |
| `Text.SplitJoin` | src/zipExport.ts:6 | splitting a join of separator-free pieces gives back the pieces |
| `Text.SplitAround` | src/BulkDownloader.tsx:16 | a separator cuts a string into the pieces of its left side followed by those of its right side |
| `Text.SplitNoSep` | src/zipExport.ts:6 | a string without the separator splits into itself alone |
| `Text.FirstPiece` | src/BulkDownloader.tsx:16 | `split(sep)[0]` is the text before the first separator |
| `Text.LastPiece` | src/zipExport.ts:6 | `split(sep).pop()` is the text after the last separator |
| `Text.ToLower` | src/BulkDownloader.tsx:12 | lower-casing keeps the length and maps each character by ASCII case folding |
| `Text.NatToDecimal` | src/downloader.ts:34 | a status rendered in a template string is a non-empty string of digits with no leading zero |
| `Text.DecimalRoundTrip` | src/downloader.ts:34 | reading the rendered digits back gives the number |
| `Csv.SplitLines` | src/BulkDownloader.tsx:9 | splitting at `\r?\n` gives at least one line and no line contains `\n` |
| `Csv.CleanLines` | src/BulkDownloader.tsx:10-11 | every kept line is non-empty and trimmed, and there are no more kept lines than lines |
| `Csv.CleanLinesSource` | src/BulkDownloader.tsx:10-11 | every kept line is the trimmed text of a non-blank input line |
| `Csv.CleanLinesAppend` | src/BulkDownloader.tsx:10-11 | trimming and filtering distribute over concatenation, so line order is kept |
| `Csv.CleanLinesCount` | src/BulkDownloader.tsx:10-11 | the number of kept lines equals the number of non-blank input lines |
| `Csv.CleanLinesHead` | src/BulkDownloader.tsx:12 | the first kept line is the trimmed first non-blank input line |
| `Csv.CleanLinesTrimEq` | src/BulkDownloader.tsx:10-11 | lines that trim to the same text clean to the same list |
| `Csv.CleanLinesAllBlank` | src/BulkDownloader.tsx:11 | blank lines contribute nothing |
| `Csv.DropCr` | src/BulkDownloader.tsx:9 | the optional `\r` before a line break is not part of the line |
| `Csv.IsHeaderName` | src/BulkDownloader.tsx:12-14 | a line names the column when, lower-cased, it is `tnumber`, `t_number` or `t` |
| `Csv.HasHeader` | src/BulkDownloader.tsx:12-14 | only the first kept line is tested; an empty list has no header (`lines[0]?` is undefined) |
| `Csv.DataLines` | src/BulkDownloader.tsx:15 | the kept lines without the first one exactly when it is a header |
| `Csv.FirstFields` | src/BulkDownloader.tsx:16 | one first field per data line, in order |
| `Csv.FirstField` | src/BulkDownloader.tsx:16 | the first field contains no comma and is trimmed |
| `Csv.FirstFieldBeforeComma` | src/BulkDownloader.tsx:16 | the first field is the trimmed text before the first comma |
| `Csv.FirstFieldNoComma` | src/BulkDownloader.tsx:16 | a line without a comma is kept whole, trimmed |
| `Csv.ParseCsv` | src/BulkDownloader.tsx:7-17 | no output element contains a comma or has whitespace at either end |
| `Csv.ParseCsvLength` | src/BulkDownloader.tsx:12-16 | the output length is the number of non-blank lines, minus one when a header is detected |
| `Csv.ParseCsvHeader` | src/BulkDownloader.tsx:12-15 | a header is detected exactly when the first non-blank trimmed line, lower-cased, is `tnumber`, `t_number` or `t`; only then is one line dropped |
| `Csv.FirstFieldsAt` | src/BulkDownloader.tsx:15-16 | the k-th output is the first field of the k-th cleaned line, or of the one after it when a header was detected |
| `Csv.ParseCsvElement` | src/BulkDownloader.tsx:9-16 | every output element is the first field of some non-blank line of the text, trimmed |
| `Csv.ParseCsvBlank` | src/BulkDownloader.tsx:12-15 | empty or all-blank text gives an empty list and no header |
| `Csv.SplitToCrlf` | src/BulkDownloader.tsx:9 | writing every `\n` as `\r\n` adds a `\r` to every piece but the last |
| `Csv.TrimDropCr` | src/BulkDownloader.tsx:9-10 | dropping the `\r` of a `\r\n` break does not change the trimmed line |
| `Csv.ParseCsvCrlf` | src/BulkDownloader.tsx:9-10 | `\n` and `\r\n` line endings give the same result |
| `Csv.HeaderRowLines` | src/BulkDownloader.tsx:9 | `header\r\nrow\n` splits into the header without its `\r`, the row, and an empty last line |
| `Csv.ParseCsvHeaderRow` | src/BulkDownloader.tsx:7-17 | a header line, a CRLF break and one row `a,b` ending in a newline give exactly one track number, the trimmed text before the row's first comma |
| `Csv.ParseCsvExample` | src/BulkDownloader.tsx:7-17 | `t\r\nT1,x\n`: the header `t` is dropped and `T1,x` gives `T1` |
| `TrackDb.KeyedByUrl` | src/db.ts:18 | the store's key path is `url`: every row is stored under its own url |
| `TrackDb.Upgrade` | src/db.ts:15-20 | the "tracks" store exists afterwards; an existing one is kept with its rows, and a missing one is created empty |
| `TrackDb.UpgradeIdempotent` | src/db.ts:15-20 | a repeated open changes nothing |
| `TrackDb.Put` | src/db.ts:31 | after a put the keys are the old keys plus `url`, the row at `url` is the new one, and every other row is unchanged |
| `TrackDb.Get` | src/db.ts:41-42 | get finds a row exactly when the key is present, and returns that row; otherwise null |
| `TrackDb.GetAfterPut` | src/db.ts:27-45 | round trip: a get after a put of `(url, blob)` returns a row with that url and blob |
| `TrackDb.GetAfterPutOther` | src/db.ts:31 | a put leaves every other key's get unchanged |
| `TrackDb.PutTwice` | src/db.ts:18-31 | last write wins: two puts to one key equal the second put alone |
| `TrackDb.PutSize` | src/db.ts:18-31 | a put adds a row only for a new key, so a key never has two rows |
| `TrackDb.PutKeyedByUrl` | src/db.ts:18-31 | every row stays stored under its own `url` |
| `TrackDb.TrackStore.Open` | src/db.ts:11-25 | opening gives the existing "tracks" rows, or an empty table when the store did not exist |
| `TrackDb.TrackStore.SaveTrack` | src/db.ts:27-35 | on commit the table becomes the put of `(url, blob, now)`; on a transaction error it is unchanged and the error is reported |
| `TrackDb.TrackStore.GetTrack` | src/db.ts:37-45 | a read-only lookup that returns the row under `url` or none, and any row returned has that `url` |
| `Progress.Counted` | src/downloader.ts:26-49 | the counting discipline of both loops: one event per item in input order, the k-th with `done == k`, `total` the item count and that item's url, with an error exactly when not ok |
| `Progress.CountedMonotone` | src/downloader.ts:26-49 | with one event per item counted from 1, `done` strictly increases and never exceeds `total` |
| `Progress.CountedLast` | src/downloader.ts:26-49 | the last event of a non-empty run has `done == total ==` the number of items |
| `Downloader.MakeMp3Url` | src/downloader.ts:12-15 | the url starts with `http://5fi.sh/`, ends with `-001.mp3`, and has the trimmed number in between |
| `Downloader.MakeMp3UrlInverse` | src/downloader.ts:12-15 | the trimmed track number can be read back from its url |
| `Downloader.MakeMp3UrlInjective` | src/downloader.ts:12-15 | two numbers give the same url exactly when they trim to the same text |
| `Downloader.MakeMp3UrlTrim` | src/downloader.ts:13 | surrounding whitespace does not change the url |
| `Downloader.IsOkStatus` | src/downloader.ts:34 | `res.ok`: the status is in 200..299 |
| `Downloader.HttpError` | src/downloader.ts:34 | the message thrown for a response that is not ok: `HTTP ` and the status in decimal |
| `Downloader.ItemError` | src/downloader.ts:32-49 | an item reports no error exactly when its fetch returned a 2xx response and its save committed |
| `Downloader.Urls` | src/BulkDownloader.tsx:32 | the urls of a list of numbers, one per number, in order |
| `Downloader.ItemEvent` | src/downloader.ts:39-49 | each item's event carries its url, `ok` exactly when nothing was thrown, and the thrown message otherwise |
| `Downloader.StepStore` | src/downloader.ts:33-37 | an item changes the table only when its body was saved, by a put at its url |
| `Downloader.DownloadEvents` | src/downloader.ts:26-50 | the events of a batch: the k-th item's event carrying `done == k+1` and `total` the batch size |
| `Downloader.StoreAfter` | src/downloader.ts:29-50 | the table after a batch: the items' effects applied in input order |
| `Downloader.SavedUrls` | src/downloader.ts:36-37 | the urls at which a batch wrote a row |
| `Downloader.DownloadOne` | src/downloader.ts:33-40 | one item: the error is the thrown message, `HTTP <status>` for a non-2xx response, or the store's error, and the table gains the put exactly when the body was saved |
| `Downloader.DownloadAll` | src/downloader.ts:22-52 | the events are exactly the per-item events in input order, and the final table is the saved items' puts applied in order to the initial one |
| `Downloader.DownloadEventsCounted` | src/downloader.ts:26-49 | exactly one event per number, the k-th with `done == k`, `total == N` and the k-th url, ok exactly when there is no error |
| `Downloader.DownloadEventOutcome` | src/downloader.ts:33-48 | an event is ok exactly when the body was saved; otherwise it reports the thrown message, `HTTP <status>`, or the store's error |
| `Downloader.HttpErrorNamesStatus` | src/downloader.ts:34 | the error for a non-2xx status is `HTTP ` followed by digits that read back as the status |
| `Downloader.HttpError404` | src/downloader.ts:34 | status 404 gives the message `HTTP 404` |
| `Downloader.DownloadEmpty` | src/downloader.ts:26-29 | an empty list gives no events and leaves the table unchanged |
| `Downloader.StoreAfterKeys` | src/downloader.ts:37 | after the batch the keys are the initial keys plus the urls of the saved items |
| `Downloader.StoreAfterFrame` | src/downloader.ts:34-50 | the table changes only at urls of saved items; a failing item writes nothing |
| `Downloader.StoreAfterLastWrite` | src/downloader.ts:36-40 | a saved item's url maps to its fetched body unless a later item saves to the same url |
| `Downloader.StoreAfterKeyedByUrl` | src/db.ts:18 | after the batch every row is still stored under its own url |
| `Downloader.StoreAfterSavedIgnoresBase` | src/downloader.ts:37 | at a saved url the final row does not depend on the table the batch started from |
| `Downloader.StoreAfterSavedHasBlob` | src/downloader.ts:36-40 | a saved url ends with a row that holds a blob |
| `Downloader.DownloadRerun` | src/downloader.ts:37 | re-running a batch whose items all succeed overwrites instead of duplicating: the result is that of the second run alone |
| `Downloader.DownloadSameTwice` | src/downloader.ts:37 | one number saved twice leaves one row, holding the second body |
| `ZipExport.FileNameFromUrl` | src/zipExport.ts:4-7 | the file name is never empty and contains no `/` |
| `ZipExport.FileNameAfterLastSlash` | src/zipExport.ts:6 | the file name is the non-empty text after the last `/` |
| `ZipExport.FileNameTrailingSlash` | src/zipExport.ts:6 | a url ending in `/` gives `track.mp3` |
| `ZipExport.FileNameNoSlash` | src/zipExport.ts:6 | a url without `/` is its own name; the empty url gives `track.mp3` |
| `ZipExport.FileNameOfMp3Url` | src/zipExport.ts:4-7 | a downloaded track's archive name is its trimmed number followed by `-001.mp3` |
| `ZipExport.FoundBlob` | src/zipExport.ts:33-34 | a blob is found exactly when the row exists and has a blob, and it is that row's blob |
| `ZipExport.ExportItemEvent` | src/zipExport.ts:33-49 | a url's event is ok when its blob was found, and otherwise fails with "Not found in IndexedDB" |
| `ZipExport.ExportEvents` | src/zipExport.ts:28-50 | the events of an export: the k-th url's event carrying `done == k+1` and `total` the url count |
| `ZipExport.ExportEntries` | src/zipExport.ts:31-37 | the `zip.file` calls of an export: one per found url, in input order, with its file name and stored blob |
| `ZipExport.ZipFiles` | src/zipExport.ts:37 | the archive's files after a sequence of `zip.file` calls: a later call with the same name replaces the earlier |
| `ZipExport.FoundIndices` | src/zipExport.ts:33-34 | the positions of the urls whose row with a blob was found |
| `ZipExport.ExportZip` | src/zipExport.ts:22-51 | the events are the per-url events in input order, and the archive calls are those for the found urls in input order; the store is only read |
| `ZipExport.ExportEventsCounted` | src/zipExport.ts:28-49 | exactly one event per url, the k-th with `done == k`, `total == N` and `url == urls[k-1]` |
| `ZipExport.ExportEventOutcome` | src/zipExport.ts:33-49 | an event is ok exactly when the url's row with a blob was found; otherwise the error is "Not found in IndexedDB" |
| `ZipExport.ExportEntriesAppend` | src/zipExport.ts:31-37 | the archive calls distribute over the url list, so they follow its order |
| `ZipExport.ExportEntriesCount` | src/zipExport.ts:34-40 | the archive gets as many files added as there are found urls (ok events) |
| `ZipExport.ExportEntryOfFound` | src/zipExport.ts:36-37 | every found url has its blob added under its file name |
| `ZipExport.ExportEntrySource` | src/zipExport.ts:33-37 | every archive call adds a found url's blob under that url's file name |
| `ZipExport.ZipFilesNames` | src/zipExport.ts:37 | the archive's file names are the names of the calls |
| `ZipExport.ZipFilesLastWins` | src/zipExport.ts:37 | for a repeated name, the archive holds the blob of the last call |
| `ZipExport.ExportOneMissing` | src/zipExport.ts:31-51 | of three urls with the middle one missing: three events, the middle one failing with "Not found", and two `zip.file` calls, for the first and the third url |
| `ZipExport.ExportOneMissingFiles` | src/zipExport.ts:31-51 | the archive of that export holds files under the two found urls' names: the third url's blob, and the first url's blob unless both names coincide |
| `ZipExport.ExportEntriesAllFound` | src/zipExport.ts:36-37 | when every url is found, there is one call per url |
| `ZipExport.ExportAfterDownload` | src/zipExport.ts:33-40 | after a batch in which every item was saved, exporting its urls finds all of them and makes one `zip.file` call each |

## Left out

- The React component (state, effects, JSX, the status strings, the progress bar, the 60-error display cap) in src/BulkDownloader.tsx: it is presentation.
- Real network access: `fetch`/`res.blob()` in `downloadAll` and the fetch of `/tracks.csv` are replaced by the caller-supplied `ItemEnv` values and by the text given to `ParseCsv`.
- `ZipExport.ExportZip`: a rejected `getTrack` is not modelled; `GetTrack` always answers. In the source `getTrack` rejects when `db.transaction` throws (src/db.ts:40) or the get request errors (src/db.ts:43); the export then reports that rejection's message for the url, with `ok: false`, and adds no file. So `ExportEventOutcome`'s "Not found in IndexedDB" is the only failure message the model produces.
- IndexedDB's asynchronous open, transaction and event-handler plumbing. A failed open (for example a database at a newer version) is not modelled. Neither is a transaction that aborts without firing `error`: in the source its promise never settles.
- `TrackDb.Upgrade`: is applied on every open. The source runs it only when the version goes up, which for the single version 1 matters only for a database at version 1 that lacks the store.
- `Date.now()`: it is the `now` value of each item's environment.
- `getErrorMessage` and its `instanceof Error` test: errors are modelled directly as their message strings.
- JSZip: `generateAsync`, the compression and a failure of the final serialization (the one fatal error) are not modelled. The archive is the sequence of `zip.file` calls, plus the last-wins view `ZipFiles`.
- The browser save: anchor creation, `URL.createObjectURL`, the click, `revokeObjectURL`, and so the `zipName` parameter, which only that step uses.
- A progress callback that throws: `onProgress` is called inside the `try`, so a throw on an ok event would be caught and reported as a second, failing event for the same item, with `done` counted twice. The events are returned instead, which assumes a callback that never throws, as the page's callbacks do (src/BulkDownloader.tsx:60-72, 91-103).
- async/await scheduling: both loops are sequential and are modelled as plain loops.
- `Text.ToLower`: folds only ASCII letters, which decides the header test the same way as full Unicode lower-casing.
