# iClippy clipboard history: a Dafny model

iClippy is a macOS menu-bar app that keeps a history of the text copied to the
clipboard. Its logic sits in two components, and this project models and proves
both.

- **The history store** (`DBManager`) is an SQLite table
  `entries(id INTEGER PRIMARY KEY AUTOINCREMENT, text TEXT UNIQUE NOT NULL, created_at INTEGER NOT NULL)`.
  - `add` trims the text, drops a blank one, and runs `INSERT OR IGNORE`, so the first write of a text wins.
  - `fetchAll` returns rows `ORDER BY created_at DESC LIMIT n`.
  - `search` runs `WHERE text LIKE '%q%'` with the same order and limit, and falls back to `fetchAll` for a blank query.
  - The model is the class `Store.DBManager`. Its fields are a sequence of entries in insertion order, the next AUTOINCREMENT id and the database path.
  - `Store.AddText`, `Store.MostRecent` and `Store.SearchRows` are pure functions that specify the methods. The lemmas beside them prove the properties.
- **The clipboard change detector** (`ClipboardMonitor`) runs on every timer tick.
  - It compares the pasteboard's change count with the last count it saw and stores the new count.
  - Only on a change does it read the pasteboard string. A non-blank trimmed string goes to the store.
  - The model is the class `Monitor.ClipboardMonitor`. Its pure specification is `Monitor.Tick`, one tick, and `Monitor.Run`, a run of ticks.

Several inputs are parameters:
- The pasteboard's change count and string, given to each tick as an `Observation`.
- The store's clock, the `now` argument of `Add`.
- The Application Support directory, the argument of `DefaultManager`.
- The rows the database file already holds, the `stored` argument of the constructor.

Modelling choices:
- **Ties in the order.** The SQL orders by `created_at` only, and timestamps are whole seconds. The model breaks ties by id, newest first (`Store.Precedes`). That is the order the repository's test "ten entries added in quick succession, `Entry 9` first" expects (`Store.FetchAllLastAddedFirst`). The query itself leaves the order of rows from the same second to SQLite; see "## Left out".
- **Whitespace.** Trimming uses Foundation's `whitespacesAndNewlines` set, written out as its members: U+0009–U+000D, U+0020, U+0085, U+00A0, U+1680, U+2000–U+200A, U+2028, U+2029, U+202F, U+205F and U+3000. It works one Unicode scalar at a time.
- **`LIKE`.** `LIKE` is modelled with its wildcards, since the query is bound without escaping (`Sources/iClippy/DBManager.swift:111`).
  - `%` matches any run of characters and `_` matches one character.
  - Letters compare up to ASCII case, as SQLite's built-in `LIKE` does.
  - For a query without `%` or `_`, this is case-insensitive substring containment (`SqlLike.LikeIsContainment`).
  - A `_` in the query matches any character (`SqlLike.UnderscoreMatchesAnyCharacter`).
- **Limit.** `Int32(limit)` traps outside the 32-bit range, so `FetchAll` and `Search` require the limit to be inside it. SQLite treats a negative `LIMIT` as no limit, and the model does the same.

Two behaviours of the code are worth stating plainly:
- **`start` is not idempotent.** A second call replaces `timer` without invalidating the first (`Sources/iClippy/ClipboardMonitor.swift:18-23`), so two timers fire. `ClipboardMonitor.Start` states exactly that: the live timer set grows by one fresh timer on every call.
- **Ignored inserts use up ids.** SQLite draws the next AUTOINCREMENT id before the UNIQUE check on `text` rejects a duplicate, so `add("a")`, `add("a")`, `add("b")` stores "b" with id 3 (`Store.IgnoredInsertUsesUpAnId`). Ids increase but can skip.

## Model

| member | source | states |
|---|---|---|
| `Text.IsWhitespace` | Sources/iClippy/DBManager.swift:60 | Foundation's `whitespacesAndNewlines` set, written out member by member; a predicate without a contract, used by the trim lemmas below |
| `Text.Trim` | Sources/iClippy/DBManager.swift:60 | `trimmingCharacters(in: .whitespacesAndNewlines)`, also used at `DBManager.swift:101` and `ClipboardMonitor.swift:41`; no contract of its own: `TrimBlankIff`, `TrimEndsNotBlank`, `TrimCutsOnlyWhitespace`, `TrimFixesTrimmed` and `TrimIdempotent` characterise it |
| `Text.TrimBlankIff` | Sources/iClippy/DBManager.swift:60-61 | the trimmed text is empty exactly when the text is whitespace only, which is the `isEmpty` guard of `add` |
| `Text.TrimEndsNotBlank` | Sources/iClippy/DBManager.swift:60 | a non-empty trimmed text neither starts nor ends with whitespace |
| `Text.TrimCutsOnlyWhitespace` | Sources/iClippy/DBManager.swift:60 | trimming keeps the contiguous piece of the text that starts after its leading whitespace, and everything it removes before and after that piece is whitespace |
| `Text.TrimFixesTrimmed` | Sources/iClippy/DBManager.swift:60 | a text with no whitespace at either end is left unchanged by trimming |
| `Text.TrimIdempotent` | Sources/iClippy/ClipboardMonitor.swift:41-43 | trimming twice equals trimming once, so the store's re-trim of a forwarded string changes nothing |
| `Text.TrimExample` | Tests/iClippyTests/DBManagerTests.swift:52-59 | `"  Trimmed text  "` trims to `"Trimmed text"` |
| `Text.FoldCase` | Sources/iClippy/DBManager.swift:106 | the case folding of SQLite's built-in `LIKE`: an ASCII capital becomes its small letter, every other character is kept, and the result is never an ASCII capital |
| `SqlLike.Like` | Sources/iClippy/DBManager.swift:106 | `text LIKE pattern` without ESCAPE; no contract of its own: `PercentMatchesAll`, `LikePrefix`, `LikeLeadingPercent`, `LikeIsContainment` and `UnderscoreMatchesAnyCharacter` characterise it |
| `SqlLike.SearchPattern` | Sources/iClippy/DBManager.swift:111 | the bound pattern is the query between two `%` |
| `SqlLike.PercentMatchesAll` | Sources/iClippy/DBManager.swift:106 | a lone `%` matches every text |
| `SqlLike.LikePrefix` | Sources/iClippy/DBManager.swift:106 | for a wildcard-free `q`, `q%` matches exactly the texts that start with `q`, ignoring ASCII case |
| `SqlLike.LikeLeadingPercent` | Sources/iClippy/DBManager.swift:106 | a leading `%` matches when the rest of the pattern matches some suffix of the text |
| `SqlLike.LikeIsContainment` | Sources/iClippy/DBManager.swift:106-112 | for a query without `%` or `_`, `text LIKE '%q%'` holds exactly when the text contains `q`, ignoring ASCII case |
| `SqlLike.UnderscoreMatchesAnyCharacter` | Sources/iClippy/DBManager.swift:111 | because the query is not escaped, searching `a_c` matches `abc`, which does not contain `a_c` |
| `Paths.AppendingPathComponent` | Sources/iClippy/DBManager.swift:19-24 | the joined path extends the directory and ends with `/` followed by the component |
| `Paths.DefaultDatabasePath` | Sources/iClippy/DBManager.swift:18-24 | the path `defaultManager()` opens; no contract of its own: `DefaultPathShape` and `DefaultPathContains` characterise it |
| `Paths.DefaultPathShape` | Sources/iClippy/DBManager.swift:17-25 | the default path starts with the Application Support directory; its last 24 characters are `/`, `iClippy`, `/`, `iclippy.sqlite3` |
| `Paths.DefaultPathContains` | Tests/iClippyTests/DBManagerTests.swift:119-127 | the default path contains every piece of the Application Support path, `iClippy` and `iclippy.sqlite3` |
| `Store.AddText` | Sources/iClippy/DBManager.swift:59-76 | `add` on the table: the entries are either unchanged or grow by one entry holding the trimmed text, the clock reading and the next id; the lemmas below say which case applies and what happens to the next id |
| `Store.AddBlankIsNoop` | Sources/iClippy/DBManager.swift:60-61 | adding `""`, `"   "`, `"\n\t"` or any whitespace-only text leaves the table unchanged |
| `Store.AddDuplicateKeepsEntries` | Sources/iClippy/DBManager.swift:42-63 | adding a non-blank text whose trimmed form is stored adds no entry, the stored entry keeps its id and timestamp, and only the id the ignored insert drew is used up |
| `Store.AddNewAppendsOne` | Sources/iClippy/DBManager.swift:63-73 | adding a new non-blank text appends exactly one entry with the trimmed text, the clock reading and an id above every stored id; earlier entries are unchanged |
| `Store.AddPreservesWellFormed` | Sources/iClippy/DBManager.swift:41-45 | after `add`, ids still start at 1, increase in insertion order and stay below the next id; texts stay non-empty, trimmed and pairwise distinct |
| `Store.AddLeavesExactlyOne` | Sources/iClippy/DBManager.swift:43 | after adding a non-blank text, exactly one entry holds its trimmed form |
| `Store.AddIsIdempotent` | Sources/iClippy/DBManager.swift:63 | adding the same text a second time, at any clock reading, adds no entry; a non-blank text uses up one more id |
| `Store.AddRepeatedlyIsOnce` | Tests/iClippyTests/DBManagerTests.swift:41-50 | adding the same text N ≥ 1 times leaves the entries the first add left; a non-blank text uses up N ids |
| `Store.IgnoredInsertUsesUpAnId` | Sources/iClippy/DBManager.swift:42-43 | `add("a")`, `add("a")`, `add("b")` on an empty table stores "a" with id 1 and "b" with id 3 |
| `Store.Precedes` | Sources/iClippy/DBManager.swift:80 | the order of `ORDER BY created_at DESC`, with rows from the same second ordered by id, newest first (a predicate; see "## Left out" on the tie order) |
| `Store.InsertByRecency` | Sources/iClippy/DBManager.swift:80 | inserting into rows in recency order keeps them in recency order and adds exactly that row |
| `Store.RecentFirst` | Sources/iClippy/DBManager.swift:80 | `ORDER BY created_at DESC` returns a permutation of the table, newest first |
| `Store.Capped` | Sources/iClippy/DBManager.swift:80-85 | `LIMIT` keeps a prefix of `min(limit, n)` rows, or all rows for a negative limit |
| `Store.MostRecent` | Sources/iClippy/DBManager.swift:79-97 | what `fetchAll(limit)` returns; no contract of its own: `MostRecentIsNewestPrefix` and `FetchAllLastAddedFirst` characterise it |
| `Store.CappedKeepsNewest` | Sources/iClippy/DBManager.swift:80 | cutting ordered rows keeps them ordered, and every kept row precedes every dropped one |
| `Store.MostRecentIsNewestPrefix` | Sources/iClippy/DBManager.swift:79-97 | `fetchAll(limit)` returns `min(limit, n)` stored entries, newest first, and no entry left out is newer than one returned |
| `Store.InsertOldest` | Sources/iClippy/DBManager.swift:80 | a row that precedes none of the ordered rows goes last |
| `Store.Reversed` | Tests/iClippyTests/DBManagerTests.swift:129-146 | reversal keeps the length and puts the k-th entry from the end at position k |
| `Store.AddKeepsClockOrder` | Sources/iClippy/DBManager.swift:67 | adding with a clock that does not go back keeps the entries in clock order |
| `Store.ClockOrderListsNewestFirst` | Tests/iClippyTests/DBManagerTests.swift:129-146 | when the clock never went back, the recency order is the reverse of insertion order (`"Third"`, `"Second"`, `"First"`) |
| `Store.FetchAllLastAddedFirst` | Tests/iClippyTests/DBManagerTests.swift:61-72 | when the clock never went back, `fetchAll(limit)` returns the last `limit` entries added, last added first, even when they share a second |
| `Store.Matching` | Sources/iClippy/DBManager.swift:106 | the filtered rows are exactly the rows whose text matches the pattern |
| `Store.MatchingMultiset` | Sources/iClippy/DBManager.swift:106 | filtering keeps each matching row as many times as the rows hold it and drops every other row |
| `Store.MatchingCountsEntries` | Sources/iClippy/DBManager.swift:106 | rows holding the same entries filter to the same number of rows, and the filtered rows hold no entry more often than the table |
| `Store.MatchingAppend` | Sources/iClippy/DBManager.swift:115-121 | filtering distributes over concatenation, row by row |
| `Store.MatchingSorted` | Sources/iClippy/DBManager.swift:106 | filtering keeps the recency order |
| `Store.SearchRows` | Sources/iClippy/DBManager.swift:100-125 | what `search(query, limit)` returns; no contract of its own: `SearchReturnsNewestMatches` and `SearchIsCaseInsensitiveContainment` characterise it, and `DBManager.Search` gives its blank-query case |
| `Store.RecentFirstSameEntries` | Sources/iClippy/DBManager.swift:80 | the ordered rows are exactly the stored entries |
| `Store.NewestMatchesCount` | Sources/iClippy/DBManager.swift:106-124 | matching rows, ordered and limited, number min(limit, number of matching entries), and hold no entry more often than the table does |
| `Store.NewestMatchesKept` | Sources/iClippy/DBManager.swift:106-124 | matching rows, ordered and limited, are stored, matching and newest first; below the limit all matches are there, and at the limit none left out is newer |
| `Store.SearchReturnsNewestMatches` | Sources/iClippy/DBManager.swift:100-125 | a non-blank search returns stored matching entries in `fetchAll` order, min(limit, number of matching entries) of them, none more often than it is stored; all matches when below the limit, none left out newer than one returned, and the empty sequence when nothing matches |
| `Store.SearchIsCaseInsensitiveContainment` | Sources/iClippy/DBManager.swift:106-113 | for a wildcard-free query, search returns entries containing the trimmed query ignoring ASCII case; below the limit it returns every such entry |
| `Store.DBManager.constructor` | Sources/iClippy/DBManager.swift:10-14 | the manager keeps the path it was given and holds the rows already in the file |
| `Store.DBManager.DefaultManager` | Sources/iClippy/DBManager.swift:17-26 | the default manager opens `<Application Support>/iClippy/iclippy.sqlite3` |
| `Store.DBManager.DatabasePath` | Sources/iClippy/DBManager.swift:29-31 | returns the path given at construction |
| `Store.DBManager.Add` | Sources/iClippy/DBManager.swift:59-76 | the new table is `AddText` of the old one (a duplicate adds no entry but uses up an id) and stays well formed |
| `Store.DBManager.FetchAll` | Sources/iClippy/DBManager.swift:79-97 | the row-reading loop returns `MostRecent(entries, limit)`, with `limit` 500 by default |
| `Store.DBManager.Search` | Sources/iClippy/DBManager.swift:100-125 | returns `SearchRows(entries, query, limit)`, with `limit` 500 by default, which is exactly `fetchAll(limit)` for a blank query |
| `Monitor.Tick` | Sources/iClippy/ClipboardMonitor.swift:31-46 | a tick records the new count whatever the pasteboard holds; it forwards exactly when the count changed and a non-blank string is present; the forwarded string is the trimmed text, non-empty and already trimmed |
| `Monitor.Run` | Sources/iClippy/ClipboardMonitor.swift:31-46 | the strings forwarded by successive `checkClipboard()` calls; a run forwards at most one string per change of the count |
| `Monitor.RunWithoutChangeForwardsNothing` | Sources/iClippy/ClipboardMonitor.swift:36 | ticks that keep seeing the last count forward nothing, so content present at construction is never forwarded |
| `Monitor.RunForwardsTrimmedText` | Sources/iClippy/ClipboardMonitor.swift:41-43 | every forwarded string is non-empty and already trimmed |
| `Monitor.ChangeForwardedExactlyOnce` | Sources/iClippy/ClipboardMonitor.swift:36-43 | a change of count with text `x`, followed by ticks with that same count, forwards `trim(x)` exactly once |
| `Monitor.ClipboardMonitor.constructor` | Sources/iClippy/ClipboardMonitor.swift:11-15 | the last seen count starts at the pasteboard's count at construction |
| `Monitor.ClipboardMonitor.Start` | Sources/iClippy/ClipboardMonitor.swift:18-23 | a fresh timer is scheduled and held; timers scheduled earlier stay live |
| `Monitor.ClipboardMonitor.Stop` | Sources/iClippy/ClipboardMonitor.swift:26-29 | the held timer, if any, is invalidated and the field is cleared |
| `Monitor.ClipboardMonitor.CheckClipboard` | Sources/iClippy/ClipboardMonitor.swift:31-46 | the new count, the forward log and the store's table are what `Tick` and `AddText` give; timers are unchanged |

## Left out

- SQLite calls, statement preparation and finalisation, the schema script and the printed error paths (`DBManager.swift:33-56`, `66-75`, `127-129`): these are foreign calls whose failures are only logged. The model assumes every statement succeeds. In the code a failed statement leaves the table unchanged for `add`. A read whose `sqlite3_step` fails after k rows returns those k rows (`DBManager.swift:87`, `115`), and one that fails at once returns the empty result.
- The schema string holds two statements, and `sqlite3_prepare_v2` compiles only the first, so the `created_at` index (`DBManager.swift:46`) is never created. An index does not change query results, so the model has none.
- Reading the database file: the constructor takes the rows already stored as an argument and requires them well formed. `WellFormed` is what the model's `add` preserves, not what the program's tables always satisfy: with the NUL cut described below, the program can store empty, untrimmed or colliding texts.
- `Date()`: the clock reading is an argument of `Add`. `ClipboardEntry.date`, a floating-point `TimeInterval`, is not modelled.
- Store.DBManager.Add: stores the whole trimmed text. Binding it through a C string (`DBManager.swift:68`) cuts a text at its first NUL character, and the model does not capture that cut. In the program it breaks every text conjunct of `WellFormed`. `add("\u{0}x")` passes the `isEmpty` guard and stores `""`, which `NOT NULL` allows. `add("a \u{0}b")` stores the untrimmed `"a "`. `add("x\u{0}y")` followed by `add("x\u{0}z")` collide under UNIQUE, so the second is ignored.
- Store.DBManager.Search: does not model SQLite's limit on the length of a `LIKE` pattern. A longer query makes the statement fail, and the code then returns the empty result.
- Store.DBManager.Search: searches for the whole trimmed query. The code binds the pattern through a C string (`DBManager.swift:111-112`), which cuts it at the first NUL character. A query `"ab\u{0}cd"` binds `%ab` and matches texts ending in "ab", and a query `"\u{0}x"` binds `%` and matches every row. The model does not capture that cut.
- Store.RecentFirst: orders rows from the same second by id, newest first, as the repository's tests expect: `testFetchAllLimit` (`Tests/iClippyTests/DBManagerTests.swift:61-72`) and `testOrderByMostRecent` (`Tests/iClippyTests/DBManagerTests.swift:129-146`), whose three adds are only 0.1 s apart and so usually share one second. `ORDER BY created_at DESC` leaves that order to SQLite, whose sorter may well return such rows oldest first. With all ten inserts in one second, the test would then see `Entry 0` first. The model does not capture the engine's own tie order.
- Store.DBManager.Add: does not model SQLite's error once AUTOINCREMENT ids reach the 64-bit maximum. Ids are unbounded integers.
- Trimming works one Unicode scalar at a time, and case folding covers ASCII letters only, as SQLite's built-in `LIKE` does. Grapheme clusters and Unicode case folding are not modelled.
- Timer scheduling and the run loop (`ClipboardMonitor.swift:18-29`) are reduced to numbered timers and the set of live ones. The poll interval (a floating-point `TimeInterval`) and the firing of ticks are not modelled.
- `NSPasteboard` reads are tick inputs. `FileManager` directory lookup and directory creation are not modelled: the Application Support path is an argument, and creation is best effort in the code.
- The app delegate, the history view and its `loadEntries`, the hotkey manager, the app entry point and the package manifest: these are UI, hotkey and build glue. `loadEntries` only dispatches to `fetchAll`/`search` with limit 500.
- Concurrency between the timer tick and UI queries: the model is sequential.
