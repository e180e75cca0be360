# welcome-home ETL: pagination and assembly core in Dafny

This project models the core of the welcome-home ETL scripts. It covers four parts.

- **Paginated download.** Pages come from the Welcome Home CRM API, and each reader follows the `Link` header to the next page. This covers the CSV export merge (`utils/wh_api_utils.py`), the ID collection of the export tool (`welcome_home_export/main.py`) and the prospect-ID collection from the activities endpoint (`welcome_home/main.py`).
- **Per-table pipeline decisions.** These are the choices made in `main.py` and the older two-phase `archive/main.py`: which steps run, when a table fails, and which outside calls are made with which names. It also covers how the tables split into successful and failed lists, and the exit code.
- **Configuration loading.** This is `load_config` in `archive/utils/config_utils.py`.
- **Snowflake statements.** This is how the SQL text is cut into statements, and the success flag of `load_data_to_snowflake` (`archive/utils/snowflake_utils.py`).

How the outside world appears in the model:
- An HTTP server is a finite script of mock responses (`Http.Response`). The k-th request receives the k-th response, and running out of responses counts as a request error.
- The parsed configuration file and the environment are maps.
- The file-system checks, the Azure upload and the Snowflake load are plain inputs: booleans, sizes or a `Call` that returns a value or raises.
- Outside calls are answered call by call. The database answers each `execute` by its position in the run as well as its text, so a statement can pass once and fail when repeated. The export tool's fetches and loads are answered by the table's position in the list, so a table named twice is fetched and loaded twice, each time on its own terms.

Loops in the source become methods with loop invariants. Each method is proved against a specification function over its inputs (`XFrom(rs, k)`: the rest of the run from request `k`). The source's promises are then lemmas about those functions.

Modules:
- Shared helpers:
  - `Wrappers`: `Option`, `Result`.
  - `Text`: Python's `str.strip`, `split` on one character, `join`, `in`, ASCII `lower`.
  - `Seqs`: order-preserving `Filter` and the partition it induces.
  - `Http`: mock responses and `raise_for_status`.
- `SnakeCase`: the `to_snake_case` / `camel_to_snake_case` function. All three copies are identical.
- `WhApiUtils`: `_get_next_page_url` and `download_table_csv`.
- `WelcomeHomeExport`:
  - ID-column choice;
  - `fetch_all_ids_from_api`;
  - the table-list parsing of `main`;
  - the table loop of `main`.
- `WelcomeHome`: the strict `Link` pattern and `fetch_prospect_ids_from_activities`.
- `Pipeline`: `process_table` and `main` of `main.py`.
- `ArchivePipeline`: `api_download_and_upload`, `snowflake_load` and `main` of `archive/main.py`.
- `ConfigUtils`: `load_config`.
- `SnowflakeUtils`: `load_data_to_snowflake`.
- `LinkCursors`: the three `Link` readers compared.

## Model

| member | source | states |
|---|---|---|
| SnakeCase.ToSnakeCase | welcome_home_export/main.py:55-58 | the result holds no ASCII upper-case letter |
| SnakeCase.ToSnakeCaseInserts | main.py:50-56 | the result is the lower-cased name with zero or more `_` put in, and nothing else changed |
| SnakeCase.ToSnakeCaseIdempotent | archive/main.py:58-64 | converting a converted name changes nothing, as both patterns need an upper-case letter |
| SnakeCase.ToSnakeCaseExample | welcome_home_export/main.py:55-58 | `DepositTransactions` becomes `deposit_transactions` |
| WhApiUtils.NextPageUrl | utils/wh_api_utils.py:108-121 | an absent or empty header gives no URL; a URL found is non-empty and holds no `>` |
| WhApiUtils.MatchAtIff | utils/wh_api_utils.py:113 | the scanner finds a match at a position exactly when the declarative pattern `<([^>]+)>\s*;\s*rel=["']?next` matches there |
| WhApiUtils.NextPageUrlLeftmost | utils/wh_api_utils.py:113-118 | the leftmost match decides the URL: its group, the text between `<` and `>` |
| WhApiUtils.NextPageUrlNone | utils/wh_api_utils.py:113-121 | a header has no next URL exactly when the pattern matches nowhere in it |
| WhApiUtils.NextPageUrlSome | utils/wh_api_utils.py:115-118 | a URL found is the group of the leftmost match |
| WhApiUtils.CursorExampleDoubleQuotes | utils/wh_api_utils.py:111-113 | `<u>; rel="next"` gives `u` |
| WhApiUtils.CursorExampleSingleQuotes | utils/wh_api_utils.py:113 | single quotes and spaces before the `;` are accepted |
| WhApiUtils.CursorExampleUnquoted | utils/wh_api_utils.py:113 | an unquoted `rel=next` is accepted |
| WhApiUtils.CursorExampleLongerRelation | utils/wh_api_utils.py:113 | the pattern only needs `next` to start the relation, so `rel="nextpage"` is accepted |
| WhApiUtils.CursorExamplePrevThenNext | utils/wh_api_utils.py:113-118 | a `next` link after a `prev` link is found |
| WhApiUtils.NextLinkAfter | utils/wh_api_utils.py:113-118 | a `<n>; rel="next"` link after a stretch that holds no other `<` and does not match at its start gives `n` |
| WhApiUtils.CursorExampleNoNext | utils/wh_api_utils.py:119-121 | a header with only a `prev` link gives no URL |
| WhApiUtils.MergeKeepsFirstPage | utils/wh_api_utils.py:61-62 | the first page is kept verbatim, header line included, at the head of the file |
| WhApiUtils.MergeClosedForm | utils/wh_api_utils.py:61-74 | the file is the first page followed by what each later page adds (a newline and its lines after the header), in page order, and the total is the sum of the pages' record counts |
| WhApiUtils.LaterPageLines | utils/wh_api_utils.py:66-70 | a later page with records adds a newline and then exactly its lines after the header |
| WhApiUtils.LaterPageNewlines | utils/wh_api_utils.py:66-72 | a later page adds one newline per record, and nothing when it has only a header |
| WhApiUtils.MergeNewlines | utils/wh_api_utils.py:61-74 | with a first page without surrounding whitespace, the file holds exactly as many newlines as the record total |
| WhApiUtils.TrailingNewlineLeavesEmptyLine | utils/wh_api_utils.py:62-69 | a first page ending in a newline is followed by an empty line once a later page adds records |
| WhApiUtils.MergeExample | utils/wh_api_utils.py:61-74 | pages `id,name\n1,a\n2,b` and `id,name\n3,c` merge into `id,name\n1,a\n2,b\n3,c` with total 3 |
| WhApiUtils.CsvRunFrom | utils/wh_api_utils.py:49-82 | a run consumes successful pages in order, stops at a failed request when it does not complete, and a completed run has at least one page |
| WhApiUtils.CsvRunFromCursors | utils/wh_api_utils.py:78-82 | every page but the last of a run announced a cursor; a completed run's last page announced none |
| WhApiUtils.DownloadStopsAtLastPage | utils/wh_api_utils.py:49-82 | with all requests succeeding, the loop stops exactly at the first page without a cursor |
| WhApiUtils.JoinPath | utils/wh_api_utils.py:39 | `os.path.join` for two POSIX components: an absolute second part replaces the first; otherwise the path starts with the first part and ends with the second, a `/` precedes the second part whenever the first is non-empty, and one is added only when the first part does not already end in `/` |
| WhApiUtils.JoinPathBaseName | utils/wh_api_utils.py:39 | a file name without `/` joined to a directory is the base name of the path |
| WhApiUtils.DownloadTableCsv | utils/wh_api_utils.py:17-95 | the path is returned exactly when the run completes, `None` after a request error; the text written, the record total and the URLs requested are those of the pages the run consumed |
| WhApiUtils.DownloadPages | utils/wh_api_utils.py:43-85 | the page loop ends with the path exactly when the run completes and with `None` after a failed request, having written the merge and the record total of the pages consumed |
| WhApiUtils.RequestedUrlsAt | utils/wh_api_utils.py:31-78 | the first request goes to the table's export URL and each later one to the cursor URL the page before announced |
| WelcomeHomeExport.IdColumn | welcome_home_export/main.py:114-123 | `to_snake_case(table) + ".id"` when present (its first index), else the first column; no column when there are none |
| WelcomeHomeExport.NonNullColumnSound | welcome_home_export/main.py:126 | the extracted IDs are no more than the rows, and each is a non-null cell of the ID column |
| WelcomeHomeExport.NonNullColumnComplete | welcome_home_export/main.py:126 | every non-null cell of the ID column is extracted |
| WelcomeHomeExport.NonNullColumnConcat | welcome_home_export/main.py:126 | extraction keeps row order: the IDs of joined rows are the joined IDs |
| WelcomeHomeExport.NonNullColumnKeepsDuplicates | welcome_home_export/main.py:126-127 | duplicate IDs are kept |
| WelcomeHomeExport.PageIds | welcome_home_export/main.py:110-133 | a page yields no IDs exactly when it does not parse or has no columns (the `IndexError` on `df.columns[0]`) |
| WelcomeHomeExport.NonNullColumnRows | welcome_home_export/main.py:126 | the k-th ID is the cell of the k-th row with a value, the positions of those rows increase, and every row with a value is among them |
| WelcomeHomeExport.PageIdsRows | welcome_home_export/main.py:114-127 | a page with columns yields exactly the non-null cells of the column `IdColumn` picks, one per row that has one, in row order |
| WelcomeHomeExport.ExportNextUrlNeedsRelNext | welcome_home_export/main.py:136-139 | a next URL is taken exactly when the header contains the literal `rel="next"` |
| WelcomeHomeExport.ExportNextUrlFirstLink | welcome_home_export/main.py:137 | the URL is the first `;`-segment with its angle brackets stripped, whichever link carries `rel="next"` |
| WelcomeHomeExport.ExportFailureDiscards | welcome_home_export/main.py:105-143 | a blank body, a parse error or a request error on any page reached discards every ID gathered |
| WelcomeHomeExport.ExportIdsWholeRun | welcome_home_export/main.py:96-146 | when pages `0` to `n - 1` are read and followed and page `n` is read and announces no next URL, the result is the IDs of pages `0` to `n` one page after the other, after `n + 1` requests |
| WelcomeHomeExport.ExportIdsAllOrNothing | welcome_home_export/main.py:96-146 | a server that runs out early gives either nothing or exactly the IDs of the full run |
| WelcomeHomeExport.ExportUrls | welcome_home_export/main.py:87-137 | the requested URLs are the first URL and then each parsed next URL, in order |
| WelcomeHomeExport.FetchAllIds | welcome_home_export/main.py:84-146 | the result is the run's IDs, or `[]` after a failure, and the URLs requested are exactly those of the run |
| WelcomeHomeExport.StripAllStrips | welcome_home_export/main.py:212 | each name is its comma-separated part less the whitespace at its two ends and nothing else: a slice between two all-whitespace stretches with no whitespace at its own ends, and the only such string |
| WelcomeHomeExport.SelectTables | welcome_home_export/main.py:205-220 | no argument gives `TABLES_TO_PROCESS`; a list is accepted exactly when every name is valid, and otherwise the first invalid name is reported |
| WelcomeHomeExport.FindInvalid | welcome_home_export/main.py:215-218 | no name is reported exactly when every name is valid; a reported name is the first invalid one |
| WelcomeHomeExport.RunTablesLoadsSound | welcome_home_export/main.py:224-228 | the loop ends after every table or at a raising load; each load is that of a table at a later position of the list than the load before, and carries the non-empty IDs fetched for that position |
| WelcomeHomeExport.ExportMain | welcome_home_export/main.py:198-232 | no connection does nothing; a valid selection runs the tables in order, each position of the list fetched and loaded on its own; an invalid one exits naming its first invalid table |
| WelcomeHome.ScanPageSound | welcome_home/main.py:88-90 | every collected ID is truthy, hashable and the `record_id` of a `Prospect` record on the page that the loop reached before any item raised |
| WelcomeHome.ScanPageComplete | welcome_home/main.py:88-90 | every `Prospect` record with a truthy ID ahead of any raising item contributes its ID |
| WelcomeHome.ScanPageStopsAtRaise | welcome_home/main.py:88-114 | an item that raises ends the page with the IDs collected before it |
| WelcomeHome.StrictNextUrl | welcome_home/main.py:95-107 | an absent or empty header gives no URL; a URL found is non-empty and holds no `>` |
| WelcomeHome.StrictMatchAtNoneIff | welcome_home/main.py:99 | the scanner fails at exactly the positions where `<([^>]+)>;\s*rel="next"` does not match |
| WelcomeHome.StrictNextUrlLeftmost | welcome_home/main.py:99-101 | the leftmost match decides the URL |
| WelcomeHome.StrictNextUrlNone | welcome_home/main.py:95-107 | a header has no next URL exactly when the pattern matches nowhere; the `rel="next"` substring test never changes that |
| WelcomeHome.StrictNextUrlSome | welcome_home/main.py:99-101 | a URL found is the group of the leftmost match |
| WelcomeHome.StrictExampleDoubleQuotes | welcome_home/main.py:99 | `<u>; rel="next"` gives `u` |
| WelcomeHome.StrictRejectsSpaceBeforeSemicolon | welcome_home/main.py:99 | `<u> ; rel="next"` gives no URL, as the `;` must follow the `>` at once |
| WelcomeHome.StrictRejectsSingleQuotes | welcome_home/main.py:99 | `<u>; rel='next'` gives no URL, as only double quotes are accepted |
| WelcomeHome.ProspectsUpTo | welcome_home/main.py:62-90 | the IDs are the union of the pages followed so far and the IDs of the rest of the run |
| WelcomeHome.ProspectsErrorKeepsPartial | welcome_home/main.py:81-114 | an empty page or a request error ends the loop and keeps the IDs already collected |
| WelcomeHome.ProspectsTruncated | welcome_home/main.py:109-117 | a server that runs out early gives a subset of the full run's IDs |
| WelcomeHome.ProspectsSound | welcome_home/main.py:62-114 | every ID is truthy, hashable and the `record_id` of a `Prospect` record on a page the loop requested, reached before any item of that page raised |
| WelcomeHome.ProspectRequestsFollowLinks | welcome_home/main.py:95-107 | a request after the first is made only after a page that announced a next link |
| WelcomeHome.ProspectRequests | welcome_home/main.py:72-102 | the first request carries the `limit` parameter; every later one goes to the announced URL without it |
| WelcomeHome.ScanActivities | welcome_home/main.py:86-90 | the loop over a page adds exactly the page's IDs and reports whether an item raised |
| WelcomeHome.ListOf | welcome_home/main.py:117 | `list(set)`: the same elements, no duplicates, as many as the set holds |
| WelcomeHome.FetchProspectIds | welcome_home/main.py:60-117 | the result holds exactly the run's IDs with no duplicate; the requests are the run's; `page_number` counts them |
| WelcomeHome.FetchProspectPages | welcome_home/main.py:62-114 | the loop ends holding exactly the run's IDs and having made exactly the run's requests, counted by `page_number` |
| Pipeline.StepsToRunExact | main.py:93-99 | `steps_to_run` holds exactly the enabled steps, in the order download, upload, load |
| Pipeline.ProcessTable | main.py:76-228 | the result and the outside calls made are those of the decision flow, and `steps_to_run` is as above |
| Pipeline.DownloadFailureStops | main.py:117-137 | no path, a missing file or an empty file fails the table right after the download |
| Pipeline.UploadWithoutDownloadFails | main.py:145-150 | an upload without a downloaded file returns `False` and calls nothing |
| Pipeline.BlobNameIsLowerCsv | main.py:155-191 | every upload and load uses the lower-cased table name plus `.csv` |
| Pipeline.ReturnsTrueIff | main.py:167-228 | `True` exactly when the load step is enabled, every enabled earlier step succeeded and the load succeeded |
| Pipeline.LoadDisabledReturnsNone | main.py:167-228 | with the load disabled and the other steps succeeding, the function falls through to `None` |
| Pipeline.PipelineMain | main.py:232-301 | invalid configuration exits 1; otherwise the successful and failed lists are the tables that returned `True` and the rest, in `TABLES` order, and the exit code is 0 exactly when none failed |
| Pipeline.MainPartition | main.py:263-297 | every table lands in exactly one list, and no failed table means every table succeeded |
| ArchivePipeline.ApiDownloadAndUpload | archive/main.py:67-131 | the result and calls are those of the guards: `False` before any upload on a missing path, file or size, an error without Azure keys, else the upload's result |
| ArchivePipeline.SnowflakeLoad | archive/main.py:134-200 | `False` without the SQL file, the section or the keys; else the loader's result |
| ArchivePipeline.DownloadFailureBeforeUpload | archive/main.py:94-108 | a failed download returns `False` before any upload |
| ArchivePipeline.LoadGuards | archive/main.py:153-163 | a missing SQL file or Snowflake section returns `False` and calls no loader; `True` exactly when every guard passes and the loader succeeds |
| ArchivePipeline.ArchiveMain | archive/main.py:203-275 | the successful tables are those whose upload and then load returned `True`; the load ran for exactly the tables whose upload returned `True`; exit code 0 exactly when none failed |
| ArchivePipeline.ArchivePartition | archive/main.py:231-271 | every table lands in exactly one list, exceptions included; a table succeeds only when its load ran |
| ConfigUtils.LoadConfig | archive/utils/config_utils.py:20-74 | the result or error is that of `load_config`, checked in the source's order |
| ConfigUtils.CollectMissingFields | archive/utils/config_utils.py:61-68 | the loop collects the required Snowflake fields that are absent or empty, in the required order |
| ConfigUtils.EmptyPathRaises | archive/utils/config_utils.py:21-22 | an empty path raises before anything is read |
| ConfigUtils.MissingSectionRaises | archive/utils/config_utils.py:37-40 | a missing `Azure` or `Snowflake` section raises, `Azure` being checked first |
| ConfigUtils.LoadedConfig | archive/utils/config_utils.py:45-71 | a loaded configuration has the environment's non-empty API key, the environment's connection string exactly when it is set, the password from the environment, else the file, else empty, and every required field present |
| ConfigUtils.OverridesTouchNothingElse | archive/utils/config_utils.py:45-54 | the overrides change only the connection string, the API key and the password |
| ConfigUtils.MissingFieldsExact | archive/utils/config_utils.py:61-68 | the missing fields are exactly the required fields that are absent or empty, in the required order |
| ConfigUtils.MissingApiKeyRaises | archive/utils/config_utils.py:50-58 | an unset or empty API key raises, whatever the file says |
| SnowflakeUtils.FirstRejected | archive/utils/snowflake_utils.py:56-60 | the position of the first `execute` call the database rejects: none before it is rejected |
| SnowflakeUtils.LoadDataToSnowflake | archive/utils/snowflake_utils.py:16-70 | a failed connection or file gives `False` with nothing run; otherwise the statements run in order up to and including the first rejected call, and `True` exactly when no call is rejected |
| SnowflakeUtils.StatementsExact | archive/utils/snowflake_utils.py:53-60 | a segment is executed exactly when it is non-blank, as the raw segment with no `;` in it |
| SnowflakeUtils.StatementsInOrder | archive/utils/snowflake_utils.py:56-60 | the statements keep the order of the segments |
| SnowflakeUtils.SegmentsJoin | archive/utils/snowflake_utils.py:53 | joining the segments with `;` gives back the formatted SQL |
| SnowflakeUtils.RawSegments | archive/utils/snowflake_utils.py:53-60 | `A; B;` runs `A` and ` B` unstripped and skips the blank last segment |
| LinkCursors.StrictMatchIsCursorMatch | welcome_home/main.py:99 | every match of the strict pattern is a match of the lenient one in utils/wh_api_utils.py:113 |
| LinkCursors.StrictFoundLenientFound | welcome_home/main.py:95-107 | a header the strict reader follows is followed by the lenient reader too |
| LinkCursors.PrevThenNext | welcome_home_export/main.py:136-137 | with a `prev` link ahead of the `next` link, both pattern readers take `n` while the export reader takes the first link, `p` |

## Left out

- HTTP requests, file writes, logging, ANSI colours, timestamps, `argparse`, `load_dotenv` and `sys.exit`. The server is a script of responses, the file is the returned text, and an exit is a returned value.
- The HTTP headers and the API key are not modelled. The mock server does not look at the URL it is given: every request gets the next response in the script. The requested URLs are returned so that the URL sequence can be stated.
- `pandas.read_csv`, `dropna` and dtypes, including the int-to-float coercion when a column has NaN. A page is a parsed table of columns and optional cells, or nothing when parsing raises. `read_csv` renames duplicate column names; the model takes the first index instead.
- JSON floats and Python's `True == 1` in sets. JSON numbers are integers, and set membership is structural equality.
- `.lower()` and the regex classes are ASCII-only, except that whitespace is Python's `str.isspace` set.
- WelcomeHome.ListOf: the order `list(set)` produces is not modelled. The method picks an order, and all it promises is the same elements without duplicates.
- ConfigUtils.LoadConfig: an unset `WELCOME_HOME_API_KEY` stores `None` in the source and the empty string in the model. Both fail the next check, so the difference is never returned.
- ConfigUtils.LoadConfig: `configparser` inheritance of the `DEFAULT` section and its lower-casing of option names are not modelled. The parsed sections are an input.
- SnowflakeUtils.LoadDataToSnowflake: connecting, reading the SQL file and `str.format` are inputs. Whether the connection succeeds, and the formatted text or its absence, are given. An error in `conn.close()` is not modelled.
- The Azure wrappers (`utils/azure_utils.py`, `archive/utils/azure_utils.py`), the Snowflake connection and the CREATE/DROP/COPY SQL text are left out. They are foreign calls; they appear as inputs that return a value or raise.
- In `main.py` and `archive/main.py` the download step is an input. It is not composed with `WhApiUtils.DownloadTableCsv`.
- archive/utils/wh_api_utils.py is not part of this model. `archive/main.py` imports its `download_table_csv`; the model treats that download as an input.
- A temporary directory that cannot be created is not modelled.
- `DownloadTableCsv` writes part of the file before a failure. That partial file stays on disk in the source. The model returns the text written, together with `None`.
