# nbafastapi: player lookup, game-log shaping and the stats cache

This project models the core of a small NBA statistics service in Dafny and
proves properties of that model. The service has two parts.

- `api/index.js`, class `NBAStats`:
  - a fixed directory `KNOWN_PLAYERS` of 21 lower-case player names and their
    NBA ids;
  - `normalizeName`: lower-cases a name, trims it and collapses each run of
    whitespace to one space;
  - `findPlayerId`: an exact lookup of the normalised name, then a partial
    search (either name contains the other) over the directory in insertion
    order, then `null`;
  - the part of `getPlayerGameLogs` that turns the service's `headers` and
    `rowSet` into one record per row and rewrites each record's `GAME_DATE`.
- `api/player-stats.py`:
  - the module-level dictionary `cache`;
  - `get_player_stats`: a memoised lookup keyed by
    `"{player_id}_{season}_{season_type}"`. On a miss it asks the statistics
    service for the game log, keeps the nine stat columns and stores the
    resulting list of records.

Files:

- `wrappers.dfy`: `Option` and `Result`.
- `js_strings.dfy`: the JavaScript string built-ins the resolver uses over
  ASCII: `toLowerCase`, `trim`, `replace(/\s+/g, ' ')` and `includes`.
- `name_resolver.dfy`: `KNOWN_PLAYERS`, `normalizeName` and `findPlayerId`.
  It also gives a reference definition of the normalised name: the
  lower-cased words joined by single spaces.
- `resolver_examples.dfy`: worked examples of `findPlayerId` on
  `KNOWN_PLAYERS`: an exact hit, a partial match, and no match.
- `game_logs.dfy`: the header/row zip and the date rewrite.
- `player_stats.dfy`: the cache key, the column projection, the statistics
  service (a class `Upstream`) and the cache (a class `StatsCache`).

Modelling choices:

- The directory is a sequence of (name, id) pairs in insertion order, because
  the partial search returns the first match in that order.
- JavaScript's `if (KNOWN_PLAYERS[name])` is a truthiness test. An id of 0
  counts as "not found"; the model keeps that case.
- `row[index]` beyond the end of a row yields `undefined`. It is modelled as
  `None` in the record.
- When a header occurs twice, the later column wins, as with repeated
  assignment to a JavaScript object.
- Date formatting (`new Date(...).toISOString().split('T')[0]`) of a defined
  value is a function parameter that returns `None` for an invalid date. An
  `undefined` date (no `GAME_DATE` header, or a row too short to reach it) is
  always invalid. An invalid date makes `toISOString` throw, and then the
  `catch` of `getPlayerGameLogs` returns `[]`.
- The statistics service is the class `Upstream`:
  - its answer to the n-th request is `respond(n, query)`, so the same query
    may be answered differently over time;
  - the field `requests` logs every query sent.
- A data frame is its column labels and rows. Labels are distinct and rows
  rectangular.
- Selecting a column the frame lacks raises in pandas. It is modelled as
  `Failure(MissingColumns)`, and the cache is left unchanged.

## Model

| member | source | states |
|---|---|---|
| JsStrings.ToLowerCase | api/index.js:56 | the result has the input's length, and each character is that input character lower-cased (A-Z only) |
| JsStrings.Trim | api/index.js:56 | the result is the input with a whitespace prefix and a whitespace suffix cut off, has no whitespace at either end, and is empty exactly when the input is all whitespace |
| JsStrings.ReplaceSpaceRuns | api/index.js:56 | defines the collapse of each whitespace run to one space; its properties are the `Replaced*` and `ReplaceAfter*` lemmas |
| JsStrings.Includes | api/index.js:69 | defines `includes`: the second string occurs in the first at some index |
| JsStrings.ReplacedSpacesArePlain | api/index.js:56 | after collapsing whitespace runs, every whitespace character left is a plain space |
| JsStrings.ReplacedSpacesAreSingle | api/index.js:56 | after collapsing whitespace runs, no two whitespace characters are adjacent |
| JsStrings.NotIncludedByChar | api/index.js:68 | a string cannot include a string with a character it lacks |
| NameResolver.NormalizeName | api/index.js:54-57 | defines `normalizeName` as lower-case, then trim, then collapse; its meaning is stated by `NormalizeNameIsNormal` and `NormalizeNameIsUnwords` |
| NameResolver.NormalizeNameIsNormal | api/index.js:54-57 | a normalised name is lower-case, has no leading, trailing or doubled whitespace, and uses only plain spaces; it is empty exactly when the input is all whitespace |
| NameResolver.WordsOfUnwords | api/index.js:56 | splitting the words joined by single spaces gives back the same words (the round trip of the reference definition) |
| NameResolver.NormalizeNameIsUnwords | api/index.js:54-57 | normalizing a name yields its lower-cased words joined by single spaces |
| NameResolver.NormalizeNameAgree | api/index.js:54-57 | two names normalise to the same string if and only if their lower-cased words are the same |
| NameResolver.NormalizeNameIdempotent | api/index.js:54-57 | normalizing a normalised name changes nothing |
| NameResolver.Get | api/index.js:63-64 | the key lookup is None exactly when no entry has the key; otherwise it returns the id of an entry with that key |
| NameResolver.FirstMatch | api/index.js:67-72 | None exactly when no entry's name contains or is contained in the query; otherwise the id of the first entry in order that does |
| NameResolver.FirstMatchIsUnique | api/index.js:67-72 | whichever entry is the first match, the partial search returns its id |
| NameResolver.Lookup | api/index.js:62-74 | defines the search on a normalised name: a truthy exact entry, else the first partial match, else null; `ResolveExact`, `ResolvePartial` and `ResolveNull` state it |
| NameResolver.Resolve | api/index.js:59-75 | defines `findPlayerId` as the search on the normalised name; the `Resolve*` lemmas state its results |
| NameResolver.FindPlayerId | api/index.js:59-75 | the loop returns what the resolution function `Resolve` gives: an exact hit, else the first partial match, else null |
| NameResolver.Search | api/index.js:62-74 | the exact check and the scan over entries return the lookup of the normalised name |
| NameResolver.KnownPlayersWellFormed | api/index.js:13-35 | the 21 names of the constant `KNOWN_PLAYERS` are pairwise distinct and every id is positive |
| NameResolver.ResolveExact | api/index.js:62-65 | a name whose normalised form is a directory key with a nonzero id resolves to that id |
| NameResolver.ResolvePartial | api/index.js:67-72 | a name that is no key resolves to the id of the first entry that contains it or that it contains |
| NameResolver.ResolveNull | api/index.js:59-75 | resolution gives null if and only if the normalised name is no key with a nonzero id and matches no entry partially |
| NameResolver.ResolveFromDirectory | api/index.js:59-75 | a resolved id is always the id of some directory entry |
| NameResolver.ResolveBlankName | api/index.js:67-70 | a blank or all-whitespace name normalises to "", which every name includes, so it resolves to the first entry |
| NameResolver.ResolveBlankNameKnown | api/index.js:13-14 | on the real directory a blank name resolves to LeBron James (2544) |
| NameResolver.ResolveIgnoresCaseAndSpacing | api/index.js:54-60 | names with the same lower-cased words resolve to the same result |
| NameResolver.ResolveNormalized | api/index.js:54-60 | resolving the normalised name gives the same result as resolving the raw name |
| ResolverExamples.ResolveLeBronSpaced | api/index.js:62-65 | "  LeBron   James " resolves to 2544 by the exact lookup |
| ResolverExamples.ResolveAnthony | api/index.js:67-72 | "anthony" is no key and resolves to the first partial match, Anthony Davis (203076), not Anthony Edwards |
| ResolverExamples.ResolveUnknown | api/index.js:67-74 | "Nonexistent Player XYZ" matches no entry and resolves to null |
| GameLogs.Cell | api/index.js:119 | a cell in range is Some of the row's value; a cell past the end is None (undefined) |
| GameLogs.RowRecord | api/index.js:116-122 | a zipped record's keys are exactly the headers |
| GameLogs.RowRecordAt | api/index.js:118-120 | each header maps to the cell at its last occurrence in the header list |
| GameLogs.RowRecordDistinct | api/index.js:118-120 | with distinct headers, the i-th header maps to the row's i-th cell |
| GameLogs.ZipRow | api/index.js:117-121 | the forEach loop over headers builds the zipped record of one row |
| GameLogs.ZipRows | api/index.js:116-122 | one record per row, in row order, each the zipped record of its row |
| GameLogs.Redate | api/index.js:124-127 | rewriting one record succeeds exactly when its date formats, which needs a defined GAME_DATE |
| GameLogs.RedateOnlyGameDate | api/index.js:124-127 | a rewritten record has the same keys, GAME_DATE holds the formatted date, and every other key is unchanged |
| GameLogs.RedateAll | api/index.js:124-127 | defines the map over records, which fails as soon as one date throws; `RedateAllPointwise` states it |
| GameLogs.RedateAllPointwise | api/index.js:124-127 | rewriting all records succeeds if and only if every record's date formats, and then the result is the records rewritten one by one |
| GameLogs.RedateLogs | api/index.js:124-130 | the map over records stops at the first invalid date, as the throw does |
| GameLogs.GameLogsOf | api/index.js:114-130 | defines the result: the zipped rows rewritten, or [] when a date throws; `GameLogsShape` and the `GameLogs*Date` lemmas state it |
| GameLogs.GetPlayerGameLogs | api/index.js:114-130 | the zip and rewrite give the game-log list of the headers and rows, or [] when a date is invalid |
| GameLogs.GameLogsShape | api/index.js:114-127 | when every date formats: one log per row; keys are exactly the headers; GAME_DATE is formatted; every other header holds the row's cell |
| GameLogs.GameLogsInvalidDate | api/index.js:124-130 | one row with an invalid date makes the whole result [] |
| GameLogs.GameLogsMissingDate | api/index.js:114-130 | without a GAME_DATE header, any answer with rows gives [] |
| GameLogs.GameLogsShortRow | api/index.js:117-130 | a row too short to reach the GAME_DATE column gives [] |
| PlayerStats.NatDecimal | api/player-stats.py:17 | the decimal rendering of an id is nonempty, all digits, and has no leading zero |
| PlayerStats.Decimal | api/player-stats.py:17 | defines `str(int)`: a minus sign for a negative number, then the digits; `DecimalSign` and `DecimalInjective` state it |
| PlayerStats.NatDecimalValue | api/player-stats.py:17 | reading the decimal rendering back gives the number |
| PlayerStats.DecimalInjective | api/player-stats.py:17 | distinct ids render as distinct strings |
| PlayerStats.CacheKey | api/player-stats.py:17 | defines the key `"{player_id}_{season}_{season_type}"`; `CacheKeyInjective`, `CacheKeyCollision` and `CacheKeyExample` state it |
| PlayerStats.CacheKeyInjective | api/player-stats.py:17 | when neither season contains "_", equal cache keys mean equal (id, season, season type) |
| PlayerStats.CacheKeyCollision | api/player-stats.py:17 | without that restriction two different queries share a key: ("2023_24", "Playoffs") and ("2023", "24_Playoffs") |
| PlayerStats.CacheKeyExample | api/player-stats.py:17 | the handler's query (203954, "2023-24", "Regular Season") has the key "203954_2023-24_Regular Season" |
| PlayerStats.Project | api/player-stats.py:23 | defines the column selection and `to_dict(orient='records')`; `ProjectSpec` states it |
| PlayerStats.ProjectSpec | api/player-stats.py:23 | selecting columns fails exactly when one is missing; otherwise one record per row, in order, keyed by exactly the selected columns, each holding the row's cell in that column |
| PlayerStats.ProjectStatKeys | api/player-stats.py:23 | every record of a successful projection has exactly the nine stat keys |
| PlayerStats.StatsOf | api/player-stats.py:21-23 | defines what a miss computes: the service's error, or the projection of its frame to the nine stat columns |
| PlayerStats.Upstream.Fetch | api/player-stats.py:21-22 | one request is logged, and the answer is the service's answer to that request number |
| PlayerStats.StatsCache.constructor | api/player-stats.py:8 | the cache starts empty |
| PlayerStats.StatsCache.GetPlayerStats | api/player-stats.py:16-26 | a hit returns the stored list and sends no request; a miss sends exactly one request and stores and returns a successful projection; no entry is removed, no other key changes, and every list handed out has the nine stat keys |
| PlayerStats.CallTwice | api/player-stats.py:17-26 | the first call sends at most one request; after a successful first call, the second returns the same list, sends no request, and the list stays stored under the key |

## Left out

- HTTP wiring is not modelled: the Express app, CORS, the `/player/stats` route, the Python `do_GET` handler and `app.py`. It is request plumbing around the core.
- `getPlayerInfo`, `BASE_URL`, `HEADERS` and the axios request of `getPlayerGameLogs` are not modelled, because they are network I/O. The model starts from `headers` and `rowSet`.
- `getPlayerGameLogs` also fails when `resultSets` is missing or malformed. That depends on the shape of the network answer and is not modelled.
- `console.error` and the timing measurement in the Python handler are not modelled.
- Date parsing and `toISOString` are a parameter (`formatDate`), because they depend on the JavaScript `Date` implementation and the host time zone.
- `get_player_id` is not modelled: it calls the `nba_api` static player table, a foreign library. `playergamelog.PlayerGameLog` is the `Upstream` parameter.
- Only ASCII is covered. `toLowerCase` lower-cases A-Z only, and `\s` and `trim` cover only ASCII whitespace. Unicode case mapping and Unicode spaces are not modelled.
- `KNOWN_PLAYERS[name]` is modelled as a key lookup. Lookups of names that reach `Object.prototype` (such as "constructor") are not modelled.
- Records are maps, so the key order of objects and of `to_dict` output is not captured. Neither is the conversion of pandas cell types.
- Frames with duplicate column labels are excluded by the `Frame` type.
- The Python cache returns the very list object it stores. The model uses values, so a caller that mutates that list, and thereby changes the cache, is not captured.
- The cache is a module-level dictionary shared by concurrent requests. Concurrency is not modelled; each call is atomic.
- `cache` has no expiry or eviction (api/player-stats.py:8, 18-26); the model never removes an entry.
- NameResolver.FindPlayerId: a directory is a sequence of entries. For a sequence with a repeated name, the model's exact lookup takes the first entry, where a JavaScript object literal keeps the last. JavaScript also lists integer-like keys first in `Object.entries`. Neither case arises for `KNOWN_PLAYERS`, whose names are distinct (`KnownPlayersWellFormed`) and all made of letters and spaces.
- FindPlayerId takes the directory as a parameter. The examples and `ResolveBlankNameKnown` apply it to `KNOWN_PLAYERS`.
