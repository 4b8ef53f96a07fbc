# Gilman: free rooms from the Tel Aviv University timetable, in Dafny

Gilman scrapes the university's timetable pages. It finds the table rows that
carry a lesson's time span (`1630-1800`). From each such row it reads the
building, room, day and semester. It then builds two indexes: a registry of
the rooms of every building, and an occupancy index building → semester →
day → hour → rooms. From these it lists the rooms that are free at a chosen
hour. Pages come through a small file cache that sits in front of the
network.

The repository has two front ends:

- `main.py` queries the timetable form. It generates the form parameters
  and sends them as `data=` through `fetch`, which only ever calls
  `session.get`. Its `post=True` and `processor=` arguments are passed along
  and never acted on. It parses the answer with one column layout and
  computes the free rooms per building.
- `old.py` crawls one syllabus page per department code with a pool of
  threads. It parses with another column layout and builds the full
  occupancy index.

Both use `fetch.py` for the cache.

This project models the sequential data path of the three files:

| file | module | what it holds |
|---|---|---|
| `strings.dfy` | `Strings` | Python 2.7 `strip()` (unicode whitespace), `[::-1]`, `<` on strings, `split` |
| `schedule.dfy` | `Schedule` | the `\d{4} *- *\d{4}` search as a leftmost-match scanner, the `0700`/`2100` window, `normalize_hours`, the two column layouts as one `Layout` value, row and page parsing |
| `rooms.dfy` | `Rooms` | `main.py`: `process`, the free-rooms loop, the `HOURS` slot table, `gen_request_data` |
| `occupancy.dfy` | `Occupancy` | `old.py`: `process` and its nested index, the sorted free-room lookup |
| `crawler.dfy` | `Crawler` | `old.py`: `split_in_n`, `get_deps`, pool sizing, the `Gilman` object (`init`, `parse`, `update_data`, a single-worker `task`) |
| `fetch.dfy` | `Fetch` | `build_path`, `get_from_cache`, `cache`, `fetch` over a map of cache files and a clock |

A page is a sequence of rows, and a row is a sequence of cell texts. The
option values of the department page are a sequence of strings. The network
is a parameter: a function from the keyword arguments to the outcome of
`session.get`, which is a body, `ConnectionError` or `TooManyRedirects`.
`_is_valid_url` is a predicate parameter. The clock is an integer count of
seconds held by the cache object. `old.py` imports `cached_pct` from
`fetch.py` (old.py:10), but `fetch.py` defines no such function, so as
written `old.py` fails at import. With no definition to model, the cached
fraction is an input: `hits` cached URLs out of `total`.

Points where the code behaves differently from what one might expect, and
which the model follows:

- The cache key is only the sanitized URL. Request data is not part of it,
  and there is no metadata index or numbered content file.
- A `ConnectionError` sleeps once and then `fetch` returns nothing. The
  `while True` sits inside the `try`, so there is no retry.
- No processor is applied to a fresh response. The keyword arguments only
  reach `session.get`.
- An empty cached file counts as a miss, because `if cached:` is false for it.
- The free rooms of `old.py` are a sorted list rather than a set.

## Model

| member | source | states |
|---|---|---|
| Strings.Strip | main.py:133 | `strip()`: the result is no longer than the text and neither end is whitespace; StripSurrounded and StripIdempotent show it removes exactly the surrounding whitespace |
| Strings.Reverse | old.py:128 | `[::-1]`: same length, the k-th character is the k-th from the end; ReverseReverse shows it is its own inverse |
| Strings.LexLess | old.py:107 | Python's `<` on strings; no contract of its own, LexLessIrreflexive, LexLessAsymmetric, LexLessTransitive and LexLessTotal show it is a strict total order |
| Strings.Split | main.py:133 | `split('-')`: at least one piece; SplitOnce shows a string with one separator splits into its two sides |
| Schedule.Search | main.py:131 | a reported span lies in the cell and matches the pattern; SearchNone, SearchSome and SearchLeftmost pin it down as the leftmost match |
| Schedule.SearchNone | main.py:131 | the search reports no span exactly when no substring anywhere matches `\d{4} *- *\d{4}` |
| Schedule.SearchSome | main.py:131 | a reported span matches the pattern and no match starts further left |
| Schedule.SearchLeftmost | main.py:131 | the leftmost match is the span the search reports |
| Schedule.SpanHalves | main.py:133 | splitting a matched span on `-` and stripping each part gives exactly its first and last four digits |
| Schedule.HoursOfSpan | main.py:133-134 | a matched span is kept iff both halves lie strictly between `"0700"` and `"2100"` in string order, and then yields those halves |
| Schedule.HoursFromCell | main.py:131-135 | what a cell yields is two four-digit times, both inside the window |
| Schedule.HoursFromCellLeftmost | main.py:131-135 | a cell yields the digit groups of its leftmost match exactly when both lie in the window, and nothing otherwise |
| Schedule.HoursFromCellNone | main.py:131-132 | a cell without any match yields nothing |
| Schedule.SpanFound | main.py:131 | the search finds two four-digit times joined by `-` or ` - ` as one span covering the whole cell |
| Schedule.SpanHours | main.py:131-135 | such a cell yields exactly its two times, blanks stripped, when both lie strictly between `0700` and `2100`, and nothing otherwise: `"1630 - 1800"` gives `1630` and `1800`, `"0600-0800"` is matched and still rejected |
| Schedule.HoursFromRow | main.py:129-135 | the hours a row yields are accepted ones |
| Schedule.HoursFromRowNone | main.py:129-135 | a row yields nothing iff none of its cells yields hours |
| Schedule.HoursFromRowFirst | main.py:130-135 | a row yields the hours of its first cell that yields any |
| Schedule.NormalizeHours | main.py:105-112 | the hours form a run of consecutive integers; the lemmas below give the examples, the order independence and exactly which hours are listed |
| Schedule.NormalizeHoursExamples | main.py:106-112 | `1630,1800` gives `[16, 17]` and `1600,1830` gives `[16, 17, 18]` |
| Schedule.NormalizeHoursSymmetric | main.py:107 | the result does not depend on the order of the two times |
| Schedule.NormalizeHoursMembers | main.py:107-112 | an hour is listed iff it lies from the start hour up to the end hour, the end hour only when the end minutes are not `00` |
| Schedule.EndOnTheHourIsFree | main.py:110-111 | a span ending exactly on the hour does not occupy that hour |
| Schedule.NormalizeHoursWithinDay | old.py:135-142 | for accepted times every listed hour lies in 7..20 |
| Schedule.Heb | main.py:167-168 | `get_heb` of either file: its result has no surrounding whitespace and the length of the stripped text; MainHebIdempotent and OldHebTwice give each file's behaviour |
| Schedule.MainHebIdempotent | main.py:167-168 | `main.py`'s `get_heb` (strip only) is idempotent |
| Schedule.OldHebTwice | old.py:127-128 | `old.py`'s `get_heb` applied twice gives the stripped text back |
| Schedule.ExtractRecord | main.py:137-150 | a record comes out iff the row has more cells than the layout's last column and building and room are non-empty after stripping; it then holds `get_heb` of the building, day and semester cells, the stripped room cell and the given hours |
| Schedule.MainLayoutFields | main.py:138-150 | in `main.py` a row of more than 4 cells gives building from cell 4, room from cell 3, day from cell 2 and semester from cell 0, all stripped |
| Schedule.OldLayoutFields | old.py:110-122 | in `old.py` a row of more than 6 cells gives building, day and semester from cells 2, 4 and 6 stripped and reversed, and room from cell 3 stripped |
| Schedule.ParseRow | main.py:122-126 | every record a row yields has a non-empty building and room and accepted hours |
| Schedule.ParsePageWellFormed | main.py:117-127 | every record of a page has a non-empty building and stripped room and accepted hours |
| Schedule.ParsePage | main.py:117-127 | a page gives at most one record per row; ParsePageSingle and ParsePageAppend say which rows give one and that the order is kept |
| Schedule.ParsePageAppend | main.py:120-127 | the records of two row sequences put together are the records of the first followed by those of the second: rows are handled one at a time, in order |
| Schedule.ParsePageSingle | main.py:121-126 | one row gives one record iff it has accepted hours, enough cells and a non-empty building and room, and none otherwise |
| Schedule.ParseRows | main.py:117-127 | the parsing loop returns the page's records, one per accepted row in row order |
| Rooms.Process | main.py:96-101 | the registry has a key for exactly the buildings of the records, and a room is in a building's set iff some record puts it there |
| Rooms.FreeRooms | main.py:201-208 | a building with no occupied entry keeps all its rooms; one with an entry gets the rooms not occupied; one with every room occupied gets no key |
| Rooms.HoursGroupsDisjoint | main.py:20-27 | no hour belongs to two `HOURS` groups, so the order of iteration does not change a lookup |
| Rooms.SlotOf | main.py:199 | a slot found for an hour is one of 1..6; SlotOfHour gives it for every hour |
| Rooms.SlotOfGroup | main.py:199 | an hour of a group gets that group's slot |
| Rooms.SlotOfHour | main.py:20-27 | hours 7..9 are slot 1, hour h in 10..19 is slot h/2-3, and other hours have no slot |
| Rooms.SelectableHours | main.py:192 | the hours offered for selection are 7 to 19 in increasing order |
| Rooms.SelectableHoursHaveSlots | main.py:192-199 | every selectable hour has a slot, so the `[0]` lookup never fails |
| Rooms.FirstRequestFields | main.py:47-76 | the first request carries `semester`, `yom` and `hour` exactly when the matching argument is non-empty, with that argument as value |
| Rooms.DropFalsy | main.py:70-75 | the pops remove exactly the keys of the empty arguments, keeping the order of the rest |
| Rooms.ClearDepartments | main.py:77-80 | after the clearing loop the keys and their order are unchanged, every `department*` value is empty and every other value is kept |
| Rooms.FollowUps | main.py:81-84 | four more requests, the k-th with `department10` set to `11`, `07`, `09`, `15` in turn and everything else as cleared |
| Rooms.GenRequestData | main.py:47-84 | five parameter lists: the template minus the empty optional fields, then four follow-ups of it |
| Occupancy.OccupantsMembers | old.py:158-159 | a room is listed under (building, semester, day, hour) iff some record places it there at that hour |
| Occupancy.OutsideHours | old.py:156-159 | no record occupies an hour outside 7..20, so the append never meets a missing hour key |
| Occupancy.DayTable | old.py:155 | the `setdefault` chain finds the day's hour table, or an empty one when the records have none |
| Occupancy.SeedHours | old.py:156-157 | after seeding, the day's table has exactly the hour keys 7..20, each with the rooms already filed there |
| Occupancy.AddHours | old.py:158-159 | the record's room is appended under each of its normalized hours and nowhere else |
| Occupancy.AddRecord | old.py:154-159 | filing one more record keeps the index equal to the index of all records so far |
| Occupancy.BuildIndex | old.py:153-159 | the second loop builds the index of all records: keys for exactly their buildings, semesters and days, hours 7..20 under each day, each hour listing its occupants in record order |
| Occupancy.SameBuildings | old.py:149-155 | the room registry and the occupancy index have the same buildings |
| Occupancy.Process | old.py:147-160 | the registry holds every record's room under its building, and the index represents the records, with the same buildings as the registry |
| Occupancy.OccupiedAt | old.py:174 | the chained `get` with empty defaults; no contract of its own, LookupOccupants and OccupiedAtMembers say what it returns |
| Occupancy.LookupOccupants | old.py:174 | the chained `get` lookup gives the hour's occupants, and nothing for a missing building, semester, day or hour |
| Occupancy.OccupiedAtMembers | old.py:174 | a room is in the looked-up list iff some record occupies it at that hour |
| Occupancy.NormalizeHoursIncreasing | old.py:142 | normalized hours are strictly increasing, so a room is appended to an hour at most once per record |
| Occupancy.Sort | old.py:175 | `sorted` returns a permutation of its input in non-decreasing string order |
| Occupancy.StrictlySortedUnique | old.py:175 | a sorted list without repeats is determined by its elements |
| Occupancy.FreeRoomsSorted | old.py:174-175 | the free rooms are exactly the building's rooms not in the hour's occupied list, strictly sorted |
| Crawler.SplitInN | old.py:12-13 | every chunk is non-empty and at most n long |
| Crawler.SplitInNConcat | old.py:12-13 | the chunks concatenate back to the input |
| Crawler.SplitInNFull | old.py:12-13 | every chunk except possibly the last has length n |
| Crawler.FullChunksPrefix | old.py:21 | the kept chunks of a value are the value without its last `len % 4` characters |
| Crawler.AllChunksLength | old.py:18-21 | every collected department code has four characters |
| Crawler.AllChunksSource | old.py:18-21 | every collected code is a full chunk of some option value |
| Crawler.AllChunksHas | old.py:18-21 | every full chunk of every option value is collected |
| Crawler.GetDeps | old.py:15-22 | the department list has no duplicates and holds exactly the collected codes |
| Crawler.PoolSize | old.py:55 | `MAX_THREADS - int((MAX_THREADS - 1) * cached_pct)`: the pool has between 1 and 32 workers for every cached fraction |
| Crawler.PoolSizeBounds | old.py:55 | the pool size lies in 1..32; it is 32 when nothing is cached and 1 when everything is |
| Crawler.PoolSizeMonotone | old.py:55 | a larger cached fraction never gives more workers |
| Crawler.Urls | old.py:68-72 | one URL per department code, in order; each is the syllabus address followed by the code and gives the code back, so distinct codes give distinct URLs |
| Crawler.Harvest | old.py:80-91 | the records read from the crawled pages, page after page; every one has a non-empty building and room and accepted hours |
| Crawler.Gilman.constructor | old.py:30-35 | a new crawler has no data, an empty queue and both counters at zero |
| Crawler.Gilman.Init | old.py:48-55 | the queue receives every department's URL in generation order, `url_count` is the number of departments, and the pool size is computed afterwards from the cached fraction |
| Crawler.Gilman.UpdateData | old.py:93-95 | the page's records are appended to `all_data` and nothing else changes |
| Crawler.Gilman.Parse | old.py:97-123 | `all_data` grows by the page's records under the `old.py` layout |
| Crawler.Gilman.ReadNext | old.py:80-91 | one turn of `task` pops the head URL, appends its page's records and counts it as read; the URL count, pool size and cached counts are unchanged |
| Crawler.Gilman.Task | old.py:80-91 | a single worker empties the queue, counts every URL as read and appends the records of every page in queue order; the URL count, pool size and cached counts are unchanged |
| Crawler.Gilman.Run | old.py:37-42 | After `init` and a single-worker drain, `read_count` equals `url_count` (which ends `join`), `all_data` holds the records of every URL's page in queue order, the queue is empty, the cached counts are the given ones and the pool size is `PoolSize` of them, within 1..32. |
| Fetch.Sanitize | fetch.py:21 | the sanitized URL is no longer than the URL and holds only word characters, whitespace and `-` |
| Fetch.SanitizeKept | fetch.py:21 | a string of kept characters is left unchanged |
| Fetch.SanitizeIdempotent | fetch.py:21 | sanitizing twice is sanitizing once |
| Fetch.BuildPath | fetch.py:20-22 | the path is `cache/` followed by the kept characters (word characters, whitespace and `-`): a file directly under `cache/`, or the directory itself when none is kept |
| Fetch.SanitizeEmpty | fetch.py:21 | nothing is left of a URL exactly when none of its characters is kept |
| Fetch.BuildPathIsDirectory | fetch.py:16-22 | the path is the cache directory `cache/` itself exactly when the URL has no kept character, as for `""` or `"://"` |
| Fetch.BuildPathName | fetch.py:20-22 | the path is `cache/` followed by the sanitized URL |
| Fetch.BuildPathDrops | fetch.py:21 | a dropped character does not change the path, so such URLs share one cache file |
| Fetch.BuildPathDistinct | fetch.py:20-22 | URLs made only of kept characters get distinct paths |
| Fetch.LookupAfterWrite | fetch.py:24-35 | a file written at time t is found, with the written content, until 21 days after t |
| Fetch.LookupExpired | fetch.py:26-28 | from 21 days of age on the file is a miss although it still exists |
| Fetch.LookupOther | fetch.py:32-35 | writing one URL's file leaves what every URL with another path finds |
| Fetch.LookupEarlier | fetch.py:27-28 | a lookup at an earlier time sees whatever a later one sees |
| Fetch.Lookup | fetch.py:24-30 | what `get_from_cache` finds in given files at a given time; no contract of its own, LookupAfterWrite, LookupExpired, LookupOther and LookupEarlier state its behaviour |
| Fetch.FileCache.GetFromCache | fetch.py:24-30 | the content of the URL's file iff it exists and its age is under 21 days, nothing otherwise |
| Fetch.FileCache.Cache | fetch.py:32-35 | the URL's file is overwritten with the content and stamped with the current time, no other file changes, and a lookup now returns the content |
| Fetch.FileCache.Fetch | fetch.py:43-57 | a non-empty cached copy is returned with no request; an invalid URL gives nothing with no request; otherwise one request is made, a body is cached under the URL's path and returned, and either exception gives nothing and writes no file |

## Left out

- Fetch.BuildPath, Fetch.FileCache.Fetch: a URL with no kept character (`""`, `"://"`) maps to `cache/`, the cache directory that fetch.py:16-18 creates. The model treats that path as an ordinary entry of the file map. In the source `os.path.exists` (fetch.py:26) is true for the directory, and while it is younger than 21 days `open` (fetch.py:29) raises `IOError`. The model has no such failure, and `FileCache.Fetch` goes on to the request instead.
- Crawler.Gilman.Task, Crawler.Gilman.Run: the page of a URL is always available. A `fetch` that returns `None` (an invalid URL, `TooManyRedirects` or `ConnectionError`, fetch.py:47-57) is not modelled. `old.py` hands that `None` to the HTML parser at old.py:86, which is outside this model. If the parser raises, the worker dies before old.py:88 counts the URL, and `read_count` never reaches `url_count`.
- Rooms.GenRequestData: the `semester`, `day` and `hour` arguments are strings, truthy when non-empty. The source passes integers 1..6 or `''`. No caller passes `0`, the one falsy integer, so truthiness is the same.
- Crawler.Gilman.Run: the progress message (old.py:40) and the `KeyboardInterrupt` handler that prints and exits (old.py:43-46) are terminal I/O and are not modelled.
- Fetch.FileCache.Fetch: the `get` parameter has only three outcomes, a body, `ConnectionError` or `TooManyRedirects`. So the model cannot express `session.get` rejecting the unknown keywords `post=` and `processor=` that `make_request` passes (main.py:87) with an uncaught `TypeError`.
- Threads, the queue's locking, `RLock`, `task_done` and the busy-wait `join` (old.py:37-46, 57-66) are concurrency. The model drains the queue with one worker (`Gilman.Task`), which shows `read_count` reaching `url_count`.
- Crawler.GetDeps: `list(set(deps))` has an unspecified order, so the contract states only the elements and that there are no repeats.
- The pool size uses the cached fraction as exact naturals `hits/total`, and the float product before `int()` is left out. `cached_pct` itself has no definition: old.py:10 imports it from `fetch.py`, which does not define it, so importing `old.py` fails as written.
- BeautifulSoup (`findAll('tr')`, `findAll('td')`, `.text`, `option.get('value')`) is replaced by rows of cell texts and a list of option values.
- `minify` (main.py:152-162) rewrites HTML with regular expressions and promises nothing the parser relies on.
- `get_all_rooms` and its pickle file (main.py:176-183) are file I/O. `get_data` and `make_request` (main.py:86-94) only chain `fetch`, `parse` and `process`, which are modelled one by one.
- The terminal interaction is left out: `interact`, `final_interact`, `print_and_select_from_list`, `select_from_list`, `read_input`, `yesno`, `print_list`, `nice_hour`, `sorted_heb`, the `DAYS`/`SEMESTERS` menus and `sys.exit`. Only the computations inside it are modelled: the hour list, the slot lookup and the free-room loops.
- `requests`, the session headers, `urlparse`, `os.path.exists`, `os.makedirs` and file I/O errors are left out. `_is_valid_url` is a predicate parameter. `session.get` is a function parameter from the keyword arguments to its outcome. `datetime.now()` is the cache's integer clock in seconds, and `time.sleep(1)` advances it by one.
- Fetch.FileCache.Fetch: a file's modification time is the clock value at the write, at one-second resolution; sub-second `datetime` arithmetic is not modelled.
- Rooms.FreeRooms: `main.py` stores a list for a building with some rooms occupied and a set copy for one with none. The model uses sets for both, so the order of the appended list is not modelled.
- Schedule.NormalizeHours: defined only for two four-digit times, the only values its callers pass. `int()` on other text would raise or accept signs and blanks, and that is not modelled.
- Strings.Strip uses the whitespace set of Python 2.7's `unicode.isspace()`, written out character by character, because the cell texts are unicode.
