# GLEIF Golden Copy utilities, modelled in Dafny

This project models the three helper modules of a small toolkit around the
Global Legal Entity Identifier Foundation (GLEIF) data:

- **`GoldenCopyDownload`** (`utils/download_utils.py`) resolves the address
  of a published Golden Copy snapshot from a date, a time, a file type and a
  variant. It downloads the ZIP into a save directory and skips files that are
  already there. It takes the file name either from the URL or from the
  server's `Content-Disposition` header. It then extracts the first CSV member
  once, or reads it straight from memory, and the configurable pipeline
  `download_with_config` ties these steps together.
- **`Codelists`** (`utils/codelist_utils.py`) downloads the registration
  authority code list once into a cache directory. It builds a memoised map
  from each registration authority code to a `" | "`-joined display name, and
  labels a column of codes with those names.
- **`GLEIFAPI`** (`utils/gleif_api_utils.py`) is an HTTP client that resolves
  a path against its base URL, retries a GET a fixed number of times, and
  extracts the `data.attributes` block of an LEI record.

The file system is a map from path to bytes. The network is a function from
URL to reply. Both live in an `Env.Host` object, which also records every URL
requested in order. The ZIP reader and the CSV parser are also parameters. So
every operation is a method that changes the host. Each method is proved
equal to a specification function of the old state: the new files, the URLs
fetched and the result. Lemmas about those functions state the properties:
cache hits make no request, a second run is a no-op, column projection keeps
the requested order, a missing field is skipped in a name, and the last row
for a code wins.

Modules and files:

- `wrappers.dfy`: `Option`, `Result`.
- `strings.dfy`: the ASCII `str` operations the source uses.
- `seqs.dfy`: two generic sequence facts.
- `paths.dfy`: `os.path.join`, `basename`, and the member-name cleaning of `zipfile`.
- `env.dfy`: the host, replies and archive entries.
- `tables.dfy`: data frames, `usecols` and column selection.
- `datetimes.dfy`: the two `strptime` formats and `strftime`.
- `snapshot_url.dfy`: URL resolution and the timestamp in a URL.
- `golden_copy.dfy`: the downloader.
- `codelists.dfy`: the code-list helper.
- `gleif_api.dfy`: the API client.

Behaviour of the code worth knowing, each point proved:

- The in-memory reader passes the columns to `usecols`. For an absent column
  it fails with `MissingColumns`, and it keeps the file's column order. The
  disk reader drops absent columns and keeps the requested order
  (`Tables.ReadPathsOrderDiffer`, `GoldenCopy.MemoryRejectsMissingColumns`,
  `GoldenCopy.DiskModeDropsMissingColumns`). So pushing the projection into
  the read is not equivalent to filtering afterwards.
- The cache check uses the file name derived from the URL. A file renamed by
  `Content-Disposition` is therefore downloaded again on every call
  (`GoldenCopy.RenamedDownloadRepeats`).
- `download_with_config` always extracts into `./gc_downloads`, whatever
  `save_dir` it was given. When the download failed, the pipeline fails as
  `NoArchive` (the source passes `None` on to the unzip step).
- The API client retries any non-200 status. An exception in the request is
  not retried. After the last attempt it returns `{}` instead of raising,
  because the `raise` after `continue` is unreachable
  (`GleifApiUtils.AllAttemptsFail`).

## Model

| member | source | states |
|---|---|---|
| SnapshotUrl.FileTypeCaseInsensitive | utils/download_utils.py:76-77 | the resolved URL is the same whatever the letter case of the file type and the variant |
| SnapshotUrl.FileTypeRejection | utils/download_utils.py:79-82 | resolution fails with `InvalidFileType` exactly when the lower-cased file type is not csv, json or xml |
| SnapshotUrl.UrlExtension | utils/download_utils.py:84-92 | a resolved URL ends in the extension the file type maps to |
| SnapshotUrl.EmptyTimeIsMidnight | utils/download_utils.py:87 | an empty time resolves exactly as "00:00" does |
| SnapshotUrl.UrlLayout | utils/download_utils.py:86-92 | resolution succeeds iff `date time` parses as `%Y-%m-%d %H:%M`; on success the URL is the base without trailing slashes, `/variant/`, a 13-character token that denotes the same instant, then the extension; otherwise it fails with `InvalidDateTime` of that text |
| SnapshotUrl.CanonicalDateResolves | utils/download_utils.py:86-92 | for a valid date written as `YYYY-MM-DD` and `HH:MM`, the URL is base + variant + `YYYYMMDD-HHMM` + extension |
| SnapshotUrl.MidnightMayBeOmitted | utils/download_utils.py:87-92 | at midnight, leaving the time empty gives the same URL as the canonical form |
| SnapshotUrl.DailyLeiSnapshotExample | utils/download_utils.py:86-92 | the caller's text `"2025-09-22"` with no time, csv, lei2 resolves to `<base>/lei2/20250922-0000.csv` |
| SnapshotUrl.FirstTokenFrom | utils/download_utils.py:53 | the leftmost match of the `20dddddd[-_]dddd` pattern, and no match before it |
| SnapshotUrl.TokenMatchesPattern | utils/download_utils.py:19 | every token `strftime` writes for years 2000-2099 matches the URL timestamp pattern |
| SnapshotUrl.NoZeroNoToken | utils/download_utils.py:19 | text with no `0` in it holds no timestamp |
| SnapshotUrl.ExtractTimestampFromUrl | utils/download_utils.py:51-59 | no pattern match gives `None`; a result is a valid calendar time in 2000-2099 |
| SnapshotUrl.ExtractAfterPrefix | utils/download_utils.py:53-57 | behind a prefix without a token, the extracted time is the `%Y%m%d%H%M` parse of the token's twelve digits |
| SnapshotUrl.ExtractInvertsFindDownloadUrl | utils/download_utils.py:51-92 | extracting the timestamp from a resolved URL gives back the requested date and time |
| SnapshotUrl.EndpointHasNoToken | utils/download_utils.py:45 | the publishes endpoint the entry points use, with `/lei2/` appended, holds no timestamp of its own |
| SnapshotUrl.PublishedSnapshotRoundTrip | utils/download_utils.py:51-92 | for that endpoint and `lei2`, every parseable date and time in 2000-2099 resolves, and its URL's timestamp is that date and time |
| DateTimes.DaysInMonth | utils/download_utils.py:88 | every month has 28 to 31 days, and February has 29 exactly in leap years |
| DateTimes.ParseDateTime | utils/download_utils.py:88 | a parsed `%Y-%m-%d %H:%M` value is a valid calendar date and time |
| DateTimes.ParseIsoText | utils/download_utils.py:88 | `strptime` reads back every time written as `YYYY-MM-DD HH:MM` |
| DateTimes.ParseCompact | utils/download_utils.py:57 | `%Y%m%d%H%M` on twelve digits succeeds iff their fields form a valid date and time, and then gives those fields |
| DateTimes.TimeToken | utils/download_utils.py:89 | `%Y%m%d-%H%M` gives eight digits, a dash and four digits |
| DateTimes.CompactOfToken | utils/download_utils.py:57-89 | the twelve digits of a written token parse back to the same time |
| Paths.JoinShape | utils/download_utils.py:106 | `os.path.join` keeps an absolute second part, inserts exactly one `/` after a directory that has none, and ends with the second part |
| Paths.BasenameOfJoin | utils/download_utils.py:162 | the base name of a directory joined with a plain name is that name |
| Paths.ExtractTarget | utils/download_utils.py:167 | a plain member name is extracted to the directory joined with that name |
| Tables.UseCols | utils/download_utils.py:245-250 | `usecols` fails iff a requested column is absent, reporting those columns; otherwise it keeps exactly the requested columns, in file order, with their cells |
| Tables.Project | utils/download_utils.py:362-368 | selecting the available columns keeps those requested that exist, in request order, with every row and each column's cells |
| Tables.PartitionPreservesRequest | utils/download_utils.py:362-363 | the available and missing lists are each in request order and together are the request |
| Tables.PartitionIsExact | utils/download_utils.py:362-363 | each requested column is in exactly one list, and available iff it exists |
| Tables.PushdownMatchesProjection | utils/download_utils.py:245-368 | when the request holds existing columns in file order, reading with `usecols` equals filtering afterwards |
| Tables.LeiProjectionExample | utils/download_utils.py:358-368 | keeping `LEI` and `Entity.LegalJurisdiction` of a file with `LEI`, `Entity.LegalName`, `Entity.LegalJurisdiction` gives exactly those two columns in that order, with every row |
| Tables.ReadPathsOrderDiffer | utils/download_utils.py:245-368 | requesting `B, A` from a file with columns `A, B` gives `A, B` through `usecols` and `B, A` through selection |
| Env.ConcatAppend | utils/download_utils.py:121-124 | writing one more chunk extends the file by that chunk |
| GoldenCopy.InitialFilename | utils/download_utils.py:103-105 | the name is the URL's last segment, or `download-<seconds>.zip` when that is empty; it is never empty and has no `/` |
| GoldenCopy.DispositionFilename | utils/download_utils.py:115-117 | a name taken from the header is non-empty, has no quote and occurs in the header |
| GoldenCopy.QuotedDisposition | utils/download_utils.py:116-118 | `attachment; filename="n"` yields `n` |
| GoldenCopy.NoDispositionNoFilename | utils/download_utils.py:115-117 | a missing header yields no name |
| GoldenCopy.DispositionFirstMatch | utils/download_utils.py:116 | the first `filename=` in the header decides the name when a value follows it |
| GoldenCopy.SavePathChoice | utils/download_utils.py:115-119 | the file is saved under the header's name when it gives one, else under the URL's name |
| GoldenCopy.DownloadTo | utils/download_utils.py:109-124 | an existing file means no request and no change; otherwise exactly one request for the URL, and a success names a file that exists |
| GoldenCopy.CacheHitIsNoop | utils/download_utils.py:109-111 | when the URL's file exists, nothing is fetched or written and its path is returned |
| GoldenCopy.DownloadWritesBody | utils/download_utils.py:113-124 | a successful reply writes the whole body under the chosen name and only there |
| GoldenCopy.FailedTransferWritesNothing | utils/download_utils.py:113-114 | a connection failure or HTTP error fetches once, writes nothing and fails |
| GoldenCopy.WrittenBytesIsBody | utils/download_utils.py:121-124 | writing the non-empty chunks in order stores the whole body |
| GoldenCopy.SecondDownloadIsNoop | utils/download_utils.py:103-111 | after a download saved under the URL's name, downloading again fetches nothing and returns the same path |
| GoldenCopy.RenamedDownloadRepeats | utils/download_utils.py:103-119 | after a download renamed by the header, downloading again fetches the URL again |
| GoldenCopy.FirstCsv | utils/download_utils.py:156-161 | the chosen member is the first whose name ends in `.csv` in any case; none means no member does |
| GoldenCopy.LastEntry | utils/download_utils.py:167 | extracting a name uses the archive's last entry with that name |
| GoldenCopy.CsvPath | utils/download_utils.py:162 | the CSV's path has the member's base name |
| GoldenCopy.ExtractAtPlaces | utils/download_utils.py:165-171 | an absent CSV is written at the root of the directory, and a copy left in a sub-folder is moved there |
| GoldenCopy.ExtractSkipsExisting | utils/download_utils.py:165 | an existing CSV is not extracted again |
| GoldenCopy.ExtractPlacesMember | utils/download_utils.py:165-171 | extraction stores the member's bytes at the root path and removes the sub-folder copy |
| GoldenCopy.ExtractIdempotent | utils/download_utils.py:165-171 | extracting twice leaves the files as extracting once |
| GoldenCopy.ReadCsv | utils/download_utils.py:174-177 | a read succeeds only on an existing file that parses; a missing file fails as not found |
| GoldenCopy.UnzipSpec | utils/download_utils.py:149-177 | unzipping fetches nothing and never fails for missing columns |
| GoldenCopy.UnzipReadsFirstCsv | utils/download_utils.py:156-160 | the unzip step fails with `NoCsvInZip` exactly when no member is a CSV, and then changes nothing |
| GoldenCopy.UnzipParsesMember | utils/download_utils.py:155-177 | the table returned is the parse of the first CSV member's bytes |
| GoldenCopy.UnzipAgain | utils/download_utils.py:155-177 | a second unzip keeps the archive and has the same effect and result |
| GoldenCopy.ReadZipInMemory | utils/download_utils.py:225-253 | transfer and HTTP errors are reported as such; with columns given, the table has exactly those columns |
| GoldenCopy.MemoryMatchesDisk | utils/download_utils.py:155-253 | without a column list, reading the downloaded archive in memory gives the same table as unzipping it on disk |
| GoldenCopy.MemoryRejectsMissingColumns | utils/download_utils.py:245-247 | in memory, requesting an absent column fails and names the absent columns |
| GoldenCopy.AsOption | utils/download_utils.py:145-147 | the prepare step turns a failure into `None` and keeps the files and requests |
| GoldenCopy.FetchRequestsResolvedUrl | utils/download_utils.py:134-147 | an unresolvable request fetches and writes nothing; otherwise only the resolved URL is fetched |
| GoldenCopy.PrepareRequestsDailyCsv | utils/download_utils.py:136 | `prepare_download` fetches only the midnight `csv`/`lei2` URL of the date |
| GoldenCopy.SnapshotFileName | utils/download_utils.py:86-106 | a snapshot is stored as `<saveDir>/YYYYMMDD-HHMM.<ext>` |
| GoldenCopy.FetchHitsStoredFile | utils/download_utils.py:134-143 | a stored snapshot is returned without a request |
| GoldenCopy.PrepareFindsStoredSnapshot | utils/download_utils.py:134-143 | with `YYYYMMDD-0000.csv` in the save directory, preparing the date fetches nothing and returns that path |
| GoldenCopy.FetchTwiceFetchesOnce | utils/download_utils.py:134-147 | a second fetch of a stored snapshot makes no request and changes nothing |
| GoldenCopy.PrepareTwiceFetchesOnce | utils/download_utils.py:134-147 | preparing the same date twice downloads once |
| GoldenCopy.PrepareInMemorySpec | utils/download_utils.py:298-310 | no file changes; a bad request fails before any transfer; otherwise exactly the resolved URL is fetched |
| GoldenCopy.NarrowKeepsRequestOrder | utils/download_utils.py:358-368 | column filtering keeps read errors and gives requested, existing columns in request order |
| GoldenCopy.DiskRunKeepsRequestOrder | utils/download_utils.py:358-368 | the disk branch with a column list never fails for missing columns, and returns requested columns in request order |
| GoldenCopy.DiskModeDropsMissingColumns | utils/download_utils.py:353-368 | the whole pipeline on disk with a column list never fails for missing columns, and keeps request order |
| GoldenCopy.MemoryModeWritesNothing | utils/download_utils.py:336-351 | the in-memory pipeline writes no file and makes at most one request |
| GoldenCopy.DiskRunRepeats | utils/download_utils.py:353-373 | reading a stored snapshot again gives the same files and result |
| GoldenCopy.FetchAndReadTwice | utils/download_utils.py:353-373 | fetching and reading a stored archive twice makes no request the second time and gives the same files and table |
| GoldenCopy.DiskRunTwice | utils/download_utils.py:353-373 | running the disk pipeline for a date twice downloads once and gives the same table |
| GoldenCopy.GoldenCopyDownload.constructor | utils/download_utils.py:21-29 | keeps the page URL and save directory |
| GoldenCopy.GoldenCopyDownload.DownloadFile | utils/download_utils.py:95-127 | the files, requests and result are those of the download specification |
| GoldenCopy.GoldenCopyDownload.Store | utils/download_utils.py:109-124 | the cache check, request and write follow the core download specification |
| GoldenCopy.GoldenCopyDownload.WriteChunks | utils/download_utils.py:121-124 | writing the chunk loop leaves exactly the written bytes at the path and no request |
| GoldenCopy.GoldenCopyDownload.PrepareDownload | utils/download_utils.py:129-147 | resolves the daily CSV and downloads it as the prepare specification says |
| GoldenCopy.GoldenCopyDownload.DownloadZipAndReadCsvInMemory | utils/download_utils.py:212-253 | one request, no file written, result as the in-memory reader gives |
| GoldenCopy.GoldenCopyDownload.PrepareDownloadInMemory | utils/download_utils.py:287-310 | matches the in-memory prepare specification |
| GoldenCopy.GoldenCopyDownload.UnzipAndReadCsv | utils/download_utils.py:149-177 | matches the unzip specification, and sends no request |
| GoldenCopy.GoldenCopyDownload.ExtractMember | utils/download_utils.py:165-171 | extraction and the move to the root, as the extraction function says |
| GoldenCopy.GoldenCopyDownload.DownloadForDate | utils/download_utils.py:32-48 | prepares the date against the public publishes endpoint |
| GoldenCopy.GoldenCopyDownload.DownloadForDateInMemory | utils/download_utils.py:256-285 | with `keep_in_memory` the day's snapshot is read in memory as the in-memory prepare specification says and nothing is written; without it the day's CSV is downloaded to the save directory as the prepare specification says and its path (or None) is returned |
| GoldenCopy.GoldenCopyDownload.DownloadWithConfig | utils/download_utils.py:313-377 | the pipeline's files, requests and result are those of the configuration specification |
| Strings.StripTrims | utils/codelist_utils.py:72-74 | `strip()` leaves no white space at either end and returns a piece of its input |
| CodelistUtils.ReadList | utils/codelist_utils.py:36 | reading the list succeeds only on an existing file that parses; a missing file fails |
| CodelistUtils.ListFrom | utils/codelist_utils.py:34-47 | a cached list is read without a request; otherwise the fixed list URL is fetched once |
| CodelistUtils.CachedListNeedsNoRequest | utils/codelist_utils.py:35-36 | with the cache file present, nothing is fetched or written and the file is read |
| CodelistUtils.DownloadedListIsCached | utils/codelist_utils.py:38-47 | a successful download writes the body into the cache file and parses it; a later call fetches nothing and returns the same result |
| CodelistUtils.NamePartsAreTrimmed | utils/codelist_utils.py:70-110 | every name part is non-empty and stripped |
| CodelistUtils.NamePartsOfThree | utils/codelist_utils.py:66-110 | the parts are those of the register, organisation and local name, in that order |
| CodelistUtils.NamePartsInFieldOrder | utils/codelist_utils.py:66-110 | the parts are the stripped fields in field order, possibly with some left out |
| CodelistUtils.NoNameIffAllBlank | utils/codelist_utils.py:112-113 | the name is `None` exactly when every field is missing or blank |
| CodelistUtils.NameOfThreeFields | utils/codelist_utils.py:66-113 | three usable fields give `a | b | c`, each stripped |
| CodelistUtils.BlankFieldSkipped | utils/codelist_utils.py:66-113 | a missing or blank middle field is left out with its separator |
| CodelistUtils.FirstCodeColumn | utils/codelist_utils.py:116-124 | the first column whose lower-cased name contains `registration`, `authority` and `code`; none means no column does |
| CodelistUtils.MappingKeys | utils/codelist_utils.py:132-136 | a code is a key of the mapping iff some row has that code |
| CodelistUtils.LastRowWins | utils/codelist_utils.py:133-136 | a code maps to the name built from the last row that has it |
| CodelistUtils.NamesTable | utils/codelist_utils.py:158-171 | two columns, one row per input code, each with its name or `""` |
| CodelistUtils.NamesTableShape | utils/codelist_utils.py:158-173 | the result is a well-formed table whose code column is the input and whose names are all present |
| CodelistUtils.NameResolvesToLastRow | utils/codelist_utils.py:164-171 | a known code gets the last matching row's name, or `""` when that row has none |
| CodelistUtils.UnknownCodeHasNoName | utils/codelist_utils.py:164-171 | a code not in the list gets `""` |
| CodelistUtils.Codelists.constructor | utils/codelist_utils.py:13-22 | keeps the cache directory, with no mapping yet |
| CodelistUtils.Codelists.DownloadRaList | utils/codelist_utils.py:24-51 | the files, requests and result are those of the list specification for the cache directory |
| CodelistUtils.Codelists.FetchList | utils/codelist_utils.py:34-47 | the cache check, request, write and read follow the list specification |
| CodelistUtils.Codelists.CreateConcatenatedName | utils/codelist_utils.py:66-113 | the row's three name columns, read with missing columns as absent, give the concatenated name |
| CodelistUtils.Codelists.ConcatenateFields | utils/codelist_utils.py:67-113 | the three `if` steps compute the concatenated name of the three fields |
| CodelistUtils.Codelists.FindCodeColumn | utils/codelist_utils.py:116-124 | the loop with `break` returns the first code column |
| CodelistUtils.Codelists.BuildMapping | utils/codelist_utils.py:132-136 | the row loop builds exactly the mapping specification |
| CodelistUtils.Codelists.CreateRaMapping | utils/codelist_utils.py:53-138 | a memoised mapping is returned with no I/O; otherwise the list is loaded, the mapping built, and kept only on success |
| CodelistUtils.Codelists.AddRegistrationAuthorityName | utils/codelist_utils.py:140-173 | the names table of the mapping, or the mapping's error; a memoised mapping is reused with no I/O, and a newly built one is kept for later calls |
| Strings.RStripRemovesTrailing | utils/gleif_api_utils.py:24 | `rstrip('/')` leaves no trailing slash, and one more trailing slash changes nothing |
| GleifApiUtils.RelativePathSeam | utils/gleif_api_utils.py:35-39 | a relative path is joined to the base with exactly one `/` at the seam, followed by the path without leading slashes |
| GleifApiUtils.LeadingSlashIgnored | utils/gleif_api_utils.py:38 | a leading `/` on a relative path makes no difference |
| GleifApiUtils.LeiRecordUrl | utils/gleif_api_utils.py:59 | an LEI record is requested at `https://api.gleif.org/api/v1/lei-records/<lei>` |
| GleifApiUtils.FailedPrefix | utils/gleif_api_utils.py:40-48 | failed rounds each add a request and a sleep with exponent `i+1`, then the rest follows |
| GleifApiUtils.AtMostRetriesRequests | utils/gleif_api_utils.py:40-53 | at most `retries` requests are sent; with no rounds left, nothing is sent and `{}` is returned |
| GleifApiUtils.DefaultClientLookup | utils/gleif_api_utils.py:21 | a default client looks an LEI up at its record URL with at most three requests |
| GleifApiUtils.AllAttemptsFail | utils/gleif_api_utils.py:40-53 | when every attempt gets a non-200 status, there are `retries` rounds of request and sleep, and the result is `{}`, not an error |
| GleifApiUtils.FirstSuccessReturned | utils/gleif_api_utils.py:40-45 | the first 200 reply ends the loop and its JSON body is returned |
| GleifApiUtils.LeiAttributes | utils/gleif_api_utils.py:60 | a non-empty result is the truthy `data.attributes` of an object payload |
| GleifApiUtils.LeiAttributesCases | utils/gleif_api_utils.py:60 | a missing or falsy `data` gives `{}`; truthy attributes are returned; it fails exactly for a non-object payload or a truthy non-object `data` |
| GleifApiUtils.ExhaustedLookupIsEmpty | utils/gleif_api_utils.py:53-60 | when every attempt fails on status, the LEI attributes are `{}` |
| GleifApiUtils.GleifApi.constructor | utils/gleif_api_utils.py:16-29 | stores the base URL without trailing slashes and the retry count |
| GleifApiUtils.GleifApi.Get | utils/gleif_api_utils.py:31-53 | the retry loop logs exactly the requests and sleeps of the retry specification and returns its result |
| GleifApiUtils.GleifApi.FetchLeiAttrs | utils/gleif_api_utils.py:55-60 | requests the LEI record path and returns its attributes, or the request's error |

## Left out

- Characters: only ASCII is modelled; `lower()`, `strip()`, `\d`, `\s` and `re.I` act on ASCII letters, digits and white space.
- Years: `strftime("%Y")` is written with four zero-padded digits. Some platforms do not pad years below 1000.
- File system: `os.makedirs`, `os.path.abspath` and the normalisation of paths are not modelled. Paths are strings in a map, and `download_file` returns the joined path.
- Transport: HTTP, ZIP decoding and CSV parsing are parameters (`server`, `unzip`, `parse`). Headers, timeouts, query parameters and the shared session are left out, as is a transfer that breaks midway through a stream.
- `time.sleep`: the backoff factor and its floating-point durations are left out; only the exponent of each sleep is recorded.
- Chunked reading: `unzip_and_read_csv`'s `chunksize` iterator is left out, and the whole table is read.
- Text caching: `response.text` is stored as the raw body. Its decoding and re-encoding as UTF-8 are not modelled.
- Output and timing: progress messages, the memory-usage report and the `async` scheduling are left out. The clock is a parameter `now`.
- Cells: a cell is text or absent (`NaN`/`None`). The `str(...)` of a numeric cell is not modelled, and neither is pandas' index, which `reset_index` discards anyway. A list of codes and a `Series` of codes are the same sequence here.
- `download_and_read_csv_in_memory` is not part of this model. It follows the pattern of the ZIP variant, which is modelled.
- The repository's other helpers (`visualization_utils.py`, package `__init__.py`) are not part of this model.
- JSON numbers: `Json.JNum` holds integers only, so floating-point values in an API reply are not modelled. Python treats `0.0` as falsy just like `0`, so no proved property depends on this.
- GleifApiUtils.LeiAttributes: its own contract states only what a non-empty result means. `LeiAttributesCases` gives the full case split.
