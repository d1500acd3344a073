# Mining-device telemetry collectors, modelled in Dafny

The repository polls network-attached Bitcoin mining devices over HTTP and
stores their JSON telemetry in DuckDB. Two scripts do this:

- `minercollect.py` (class `MinerDataCollector`) fetches one device's
  `/api/system/info`. It recovers the JSON even when the body is HTML. It
  inserts one `mining_stats` row built from 52 payload keys, reads back
  `MAX(id)`, and inserts one `share_rejection_reasons` row per entry of the
  payload's `sharesRejectedReasons` list.
- `chatminer.py` polls a list of endpoints each cycle. It projects six fields
  of each payload (`hashRate` truncated to an integer), appends one
  timestamped row per record to the `stats` table, and shows the latest row
  of every host.

The model has six modules:

- `Wrappers`: `Option` and `Result`.
- `Telemetry`: decoded JSON values (`Json`), HTTP responses (`Response`) and
  the JSON parser, which is a function parameter (`Parser`).
- `Extractor`: `extract_json_from_response` as pure functions. It is
  connected to an independent "first success wins over the attempt chain"
  definition.
- `ColumnMap`: the 52 column names and the 52 payload keys of the insert.
- `MinerStore`: `collect_and_store_data`. A pure specification (`StoreSpec`,
  `CollectSpec`) states what it does, and the class `MinerDataCollector`
  holds the two tables and the id sequence. Its methods are proved against
  that specification.
- `ChatMiner`: `fetch_data` and the `int()` conversion, the class
  `StatsTable` with `store_data` and one poll cycle, and the
  latest-per-host query as a pure function. The poll cycle is proved for any
  per-endpoint fetch function (`PollCycle`), and `MainLoopPass` instantiates
  it with `fetch_data`. The rows a cycle stores are specified by `Fetched`
  and `Cycle`, which take the list of `fetch_data` results.

Foreign components become parameters:

- the JSON decoder is `parse: string -> Option<Json>`;
- BeautifulSoup is `soup: string -> Option<string>`, which gives the text of
  the first element with a tag;
- the network is a `Response` per fetch;
- `datetime.now()` is a timestamp per stored row;
- whether DuckDB accepts a `stats` row is `admits: StatsRow -> bool`.

The model follows what the code does, including where that is easy to
misread:

- The `mining_stats` insert selects its 52 keys from `read_json`. A key
  missing from the payload makes DuckDB raise, so nothing is inserted; the
  key is not stored as NULL.
- The reason inserts are not in a transaction. An entry without
  `message`/`count` stops the loop, and the rows written before it remain.
- When extraction fails, the `finally` clause of `collect_and_store_data`
  reads `temp_file`, which was never assigned. The resulting
  `UnboundLocalError` leaves the method (outcome `Escaped`), so failures are
  not isolated there.
- In `chatminer.py`, `store_data` runs outside any `try`. A row the database
  refuses stops the cycle (and the loop), whereas a failed fetch is only
  skipped.
- `minercollect.py` raises for HTTP status 400-599 (`raise_for_status`);
  `chatminer.py` does not check the status.

## Model

| member | source | states |
|---|---|---|
| `Extractor.Find` | minercollect.py:44 | `str.find`: -1 exactly when the character is absent, otherwise its first index |
| `Extractor.RFind` | minercollect.py:45 | `str.rfind`: -1 exactly when absent, otherwise the last index |
| `Extractor.BraceSpan` | minercollect.py:35-36 | the DOTALL match of `(\{.*\})` exists exactly when some `}` follows some `{`; it starts with `{` and ends with `}` |
| `Extractor.BraceSpanIsLeftmostLongest` | minercollect.py:35 | the match is the leftmost-starting and then longest `{...}` span, i.e. first `{` to last `}` |
| `Extractor.ExtractJsonFromResponse` | minercollect.py:14-55 | the fetch fails ("Failed to fetch") exactly for a RequestException or an HTTP 4xx/5xx status |
| `Extractor.TagCandidate` | minercollect.py:31-36 | a tag yields text exactly when the document has such an element and a `}` follows a `{` in its text; the text then runs from `{` to `}` |
| `Extractor.FirstParsed` | minercollect.py:30-40 | a value is returned only if some candidate parses to it |
| `Extractor.FirstParsedIsFirstSuccess` | minercollect.py:30-40 | trying candidates in order fails exactly when all fail, and otherwise returns the value of the first candidate that parses |
| `Extractor.ExtractIsFirstSuccess` | minercollect.py:20-52 | the extractor equals first-success-wins over the chain: whole body, `pre`, `code`, `script`, then first `{` to last `}` |
| `Extractor.ExtractWholeBodyWins` | minercollect.py:21-24 | a body that parses is returned as is, whatever the HTML contains |
| `Extractor.ExtractTagOrder` | minercollect.py:30-40 | tags are tried in the order pre, code, script, on their first element only; a failed parse moves on; the first tag whose span parses wins |
| `Extractor.FallbackCandidate` | minercollect.py:43-46 | the fallback text is no longer than the body, and unless it is empty it starts with `{` and ends with `}` |
| `Extractor.FallbackCandidateSpec` | minercollect.py:42-46 | the fallback is tried exactly when both `{` and `}` occur; it equals the regex span when a `}` follows the first `{`, and is empty otherwise |
| `Extractor.FallbackFailsWhenReversed` | minercollect.py:47-50 | with a parser that rejects empty text, a last `}` before the first `{` makes the fallback fail |
| `Extractor.ExtractFailsIffAllAttemptsFail` | minercollect.py:52 | "Could not extract valid JSON" exactly when every attempt fails; a returned value is always one an attempt parsed |
| `Extractor.ExtractWithoutBraces` | minercollect.py:20-52 | a non-JSON body with no `{` in it or in any searched element gives "Could not extract valid JSON" |
| `ColumnMap.ColumnMappingIsOneToOne` | minercollect.py:70-98 | 52 columns and 52 keys paired by position, distinct on each side, `sharesRejectedReasons` not among the keys |
| `ColumnMap.ColumnMappingSamples` | minercollect.py:71-95 | e.g. `mac_address` gets `macAddr`, `asic_model` gets `ASICModel`, `flip_screen` gets `flipscreen` |
| `MinerStore.MaxId` | minercollect.py:103-104 | `MAX(id)`: NULL exactly on an empty table, otherwise an id of the table that no row's id exceeds |
| `MinerStore.MaxIdIsLastInserted` | minercollect.py:102-104 | with increasing ids, `MAX(id)` is the id of the row just inserted |
| `MinerStore.StatsValues` | minercollect.py:69-100 | the insert succeeds exactly when the payload is an object with all 52 keys, and then yields one value per column |
| `MinerStore.StatsRowColumns` | minercollect.py:70-98 | each column of the inserted row holds the payload value of the key paired with it |
| `MinerStore.LoopItems` | minercollect.py:107 | `for reason in` a list yields its items; an empty string or object yields nothing; any other value fails before the first row |
| `MinerStore.WellFormedPrefix` | minercollect.py:107-111 | the loop reaches exactly the leading entries that have both `message` and `count`, and stops at the first that lacks one |
| `MinerStore.ReasonInserts` | minercollect.py:103-111 | every reason row carries `MAX(id)`; nothing is written and nothing raises unless `MAX(id)` is truthy and the key is present; a loop that does not raise writes one row per item |
| `MinerStore.ReasonInsertsLinks` | minercollect.py:107-111 | with a truthy `MAX(id)` and a list, row k links entry k's message and count, one row per well-formed leading entry, and the loop raises exactly when some entry is malformed |
| `MinerStore.StoreSpec` | minercollect.py:69-111 | a store never escapes; it keeps every earlier row of both tables, and adds one stats row and advances the id sequence exactly when the insert succeeds |
| `MinerStore.CollectSpec` | minercollect.py:57-121 | the call escapes exactly when extraction raises |
| `MinerStore.StorePreservesValid` | minercollect.py:69-111 | a store keeps the mining_stats ids strictly increasing and below the next id |
| `MinerStore.StoreAddsOneStatsRow` | minercollect.py:69-100 | a successful insert adds exactly one stats row (next id, payload values) and keeps earlier rows of both tables; a failed insert changes nothing and is reported |
| `MinerStore.StoreLinksReasons` | minercollect.py:103-111 | reason rows carry `MAX(id)`, the new row's id, and copy message and count of the entries, in order, one per well-formed leading entry; success exactly when all entries are well formed |
| `MinerStore.StoreReportsNonIterableReasons` | minercollect.py:103-116 | with a truthy `MAX(id)` and a `sharesRejectedReasons` value the loop fails on at once, the stats row stays, no reason row is written and the error is reported |
| `MinerStore.NoReasonsWhenAbsentOrFalsy` | minercollect.py:104-106 | no reason rows when the key is absent or `MAX(id)` is 0 |
| `MinerStore.CollectFailedExtraction` | minercollect.py:57-61 | a failed extraction changes no table and ends with an escaping exception |
| `MinerStore.MinerDataCollector.constructor` | minercollect.py:9-12 | connecting keeps whatever rows and id-sequence position the database file already holds |
| `MinerStore.MinerDataCollector.CollectAndStoreData` | minercollect.py:57-121 | the new tables and the outcome are those of `CollectSpec`; ids stay increasing |
| `MinerStore.MinerDataCollector.StoreMinerData` | minercollect.py:69-111 | the insert, `MAX(id)` read and reason loop produce exactly `StoreSpec`'s tables and outcome |
| `MinerStore.MinerDataCollector.InsertReasons` | minercollect.py:107-111 | the loop appends one linked row per leading well-formed entry, in order, touches nothing else, and raises exactly when some entry lacks `message` or `count` |
| `ChatMiner.Truncate` | chatminer.py:41 | `int()` of a float truncates toward zero: same sign, magnitude below one unit less |
| `ChatMiner.TruncateExamples` | chatminer.py:41 | 123.7 gives 123 and -2.5 gives -2 |
| `ChatMiner.AsciiSpacesSpec` | chatminer.py:41 | before reading digits, `int()` sees whitespace exactly at the ASCII whitespace and at the non-ASCII Unicode whitespace of the string; no character below U+0080 changes, so U+001C..U+001F are never whitespace |
| `ChatMiner.IntOfStringAccepts` | chatminer.py:41 | `int()` of a string succeeds exactly when the text inside the surrounding whitespace is digits with an optional sign directly before them; a negative value needs a `-` |
| `ChatMiner.IntOfStringShowInt` | chatminer.py:41 | `int()` of a string reads back every integer numeral of at most 4300 digits, the numerals `str()` writes |
| `ChatMiner.IntOfStringPadded` | chatminer.py:41 | ASCII whitespace around a signed numeral is skipped |
| `ChatMiner.IntOfStringSeparator` | chatminer.py:41 | U+001C before digits is rejected, also when the string holds a non-ASCII space |
| `ChatMiner.IntOfStringNonAsciiPadded` | chatminer.py:41 | non-ASCII spaces (U+3000, U+00A0) around digits are skipped |
| `ChatMiner.IntOfStringRejectsLong` | chatminer.py:41 | a numeral of more than 4300 digits is rejected |
| `ChatMiner.IntOfStringRejectsSpacedSign` | chatminer.py:41 | a space between the sign and the digits is rejected |
| `ChatMiner.IntOfStringRejectsPoint` | chatminer.py:41 | a decimal point is rejected |
| `ChatMiner.PyInt` | chatminer.py:41 | `int()` raises on null, lists and objects and truncates numbers |
| `ChatMiner.ProjectReadingSucceeds` | chatminer.py:37-44 | the projection gives a record exactly for an object whose `hashRate` (0 when absent) `int()` accepts, and then holds that integer |
| `ChatMiner.FetchDataSucceeds` | chatminer.py:33-47 | `fetch_data` gives a record exactly when the endpoint answers with a body that parses and projects, whatever the HTTP status |
| `ChatMiner.ProjectionCopiesFields` | chatminer.py:37-44 | the record's five other fields are the payload's values, None (JNull) where the key is missing |
| `ChatMiner.HashRateConversion` | chatminer.py:41 | absent `hashRate` gives 0, a numeric one is truncated, a null one makes the fetch give None |
| `ChatMiner.FetchFailuresGiveNone` | chatminer.py:33-47 | a fetch error, an unparsable body or a non-object payload gives None |
| `ChatMiner.StatsTable.constructor` | chatminer.py:20-31 | `CREATE TABLE IF NOT EXISTS` keeps the existing rows |
| `ChatMiner.StatsTable.StoreData` | chatminer.py:49-53 | appends exactly one row, timestamp first, leaving existing rows unchanged, or raises and changes nothing |
| `ChatMiner.FetchEachSpec` | chatminer.py:70-71 | entry k of the fetch results is the fetch of endpoint k |
| `ChatMiner.FetchAllSpec` | chatminer.py:70-71 | entry k is `fetch_data` of endpoint k |
| `ChatMiner.StatsTable.PollEndpoint` | chatminer.py:71-73 | a record is stored, and None is skipped |
| `ChatMiner.StatsTable.PollCycle` | chatminer.py:70-73 | one pass over the endpoints, calling the fetch once per endpoint, appends exactly `Cycle`'s rows and reports whether it completed |
| `ChatMiner.StatsTable.MainLoopPass` | chatminer.py:70-73 | the same with `fetch_data` as the fetch |
| `ChatMiner.SuccessfulEndpoints` | chatminer.py:71-72 | the indices it lists are in range, all of successful fetches |
| `ChatMiner.SuccessfulEndpointsSpec` | chatminer.py:71-72 | the list holds every endpoint whose fetch returned a record, each once, in increasing order |
| `ChatMiner.FetchedOnePerSuccess` | chatminer.py:70-73 | `Fetched` has one row per successful fetch: row m holds the m-th successful endpoint's record and that endpoint's timestamp |
| `ChatMiner.Cycle` | chatminer.py:70-73 | a cycle stores at most one row per endpoint |
| `ChatMiner.CycleStoresOnlyAdmitted` | chatminer.py:73 | every row a cycle stores is one the database accepts |
| `ChatMiner.CycleStoresEveryFetch` | chatminer.py:70-73 | if the database accepts every row, the cycle appends one row per fetch that returned a record, in endpoint order, and completes |
| `ChatMiner.CycleIsPrefixOfFetched` | chatminer.py:70-73 | in general the cycle appends a prefix of those rows, stopping short only at a row the database refuses |
| `ChatMiner.FetchedAppend` | chatminer.py:70-73 | polling two endpoint lists one after the other gives the first list's rows, then the second's |
| `ChatMiner.FetchedAllSucceed` | chatminer.py:70-73 | when every endpoint returns a record, there is one row per endpoint and row k holds endpoint k's record and the k-th timestamp |
| `ChatMiner.FailedFetchIsSkipped` | chatminer.py:71-72 | a failed fetch adds no row and does not stop later endpoints |
| `ChatMiner.ThreeEndpointsSecondFails` | chatminer.py:70-73 | with three endpoints and the second fetch failing, the rows of the first and third are stored |
| `ChatMiner.Hosts` | chatminer.py:59 | the partitions: each hostname of the table once, and only those |
| `ChatMiner.LatestIndex` | chatminer.py:59-61 | the `rn = 1` row of a host: a row of that host with the greatest timestamp |
| `ChatMiner.LatestPerHost` | chatminer.py:56-62 | the view has one row per partition, in the order of `Hosts`, row m for host m |
| `ChatMiner.LatestCoversEveryHost` | chatminer.py:56-62 | every hostname of the table has a row in the view |
| `ChatMiner.LatestOnePerHost` | chatminer.py:56-62 | no hostname has two rows in the view |
| `ChatMiner.LatestIsNewest` | chatminer.py:56-62 | each view row is a stored row of its host, without the timestamp, and no row of that host is newer |

## Left out

- HTTP: `requests.get`, timeouts and the kinds of RequestException become a `Response` input (failure, or status and text).
- JSON decoding (`json.loads`, `Response.json`) and HTML parsing (BeautifulSoup) are foreign code. They are function parameters, so the model proves nothing about what they return.
- The temporary JSON file (`json.dump`, `os.remove`), the SQL text and table creation are not modelled; the tables are in-memory sequences.
- The `mining_stats` and `share_rejection_reasons` schemas do not appear in the source. Ids are modelled as a sequence starting at a given first value. Every value, including a reason's `message` and `count`, is taken to fit its column.
- Rows hold the decoded JSON values as Python passes them, not the values after DuckDB casts them to the column types.
- DuckDB's `read_json` on a top-level array of objects inserts several rows. The model treats any non-object payload as a failed insert.
- DuckDB matches column names case-insensitively. The model needs each key spelled exactly.
- Type conversion of `stats` columns (32-bit `INT`, `FLOAT`, `TEXT`) is the `admits` parameter, not a model of DuckDB's casts.
- ChatMiner.IntOfString: `int()` of a string is modelled with CPython's whitespace rule (non-ASCII spaces become spaces, then ASCII whitespace is stripped), an optional sign, ASCII digits and the default limit of 4300 digits (Python 3.11 and later; `sys.set_int_max_str_digits` can change it). Underscores between digits and non-ASCII digits (which `int()` also accepts) are not modelled, so such strings are rejected.
- ChatMiner.PyInt: floats are reals. NaN and infinity (on which `int()` raises) and binary rounding are not modelled.
- Telemetry values other than `hashRate` are opaque JSON values.
- The infinite loops, `time.sleep`, printing, `tabulate` rendering, the endpoint list and the device addresses are left out. One cycle and one collect call are modelled.
- ChatMiner.LatestIndex: among rows of a host with the same greatest timestamp, SQL picks any one; the model picks the earliest stored. The view's row order is unspecified in SQL; the model lists hosts in order of first appearance.
- `minerStruct.go` only declares types and is not part of this model.
