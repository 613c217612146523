# Notion integrations: date roll-forward and Pokémon import, in Dafny

This project models the two scripts of the notion_integrations repository that
do more than call an API.

**`misc_utils/updt_to_yest.py`** moves yesterday's pages of a Notion calendar
database to today. It queries the pages whose date property lies in the
one-day window `[yesterday, today)`. For each page with a start it rewrites the
start, and the end when there is one, to today's date. The time of day and the
UTC offset are kept. The model covers:

- the proleptic Gregorian calendar (`Calendar`: leap years, month lengths,
  next and previous day, Python's day ordinal, `%Y-%m-%d` text);
- the ISO 8601 timestamps the script reads and writes (`Timestamp`: a
  restricted `fromisoformat` and the matching `isoformat`);
- `shift_date_preserving_time`, the query window, the update payload, the
  loop of the main block, and the yesterday/today dates (`UpdateToYesterday`).

**`notion_pokemon.py`** imports Pokémon into a Notion database. The model
covers:

- the per-creature fields: the prettified name, the Bulbapedia link, the
  sprite fallback, the type options, and the English flavour text, category
  and generation (`PokemonFields`);
- the records, the database schema and the page request (`PokemonPages`);
- the list `db_pokemon`, which the script fills and then enriches in place,
  and the page loop (`NotionPokemon.PokemonTable`).

API responses are inputs. Requests are returned as values. The clock is a
parameter.

Where the code raises, the model raises too:

- The loop at `misc_utils/updt_to_yest.py:89-100` has no `try`: the first
  malformed value or JSON `null` date object ends the run, after the updates
  already issued. `Sync` and `UpdatePagesToToday` model that
  (`SyncRun.failure`).
- `misc_utils/updt_to_yest.py:42-53` and `:100` have no `try` around the
  update call either, so a failed update would also end the run. Update calls
  are not modelled, so every issued request counts as sent.
- The page loop of `notion_pokemon.py:166-228` builds each request before
  its `try`. A record whose species request failed lacks `category`,
  `flavor-text` and `generation`, so building its request raises `KeyError`,
  which ends the script. `CreateNotionPages` and `RunScript` model that
  (`raised`); the corrected loop is under "## Findings".

## Model

| member | source | states |
|---|---|---|
| Calendar.DaysInMonth | misc_utils/updt_to_yest.py:28 | every month has 28 to 31 days; February has 29 exactly in leap years; April, June, September and November have 30, the others 31 |
| Calendar.NextDay | misc_utils/updt_to_yest.py:28 | the day after a calendar date is a calendar date and comes strictly later |
| Calendar.NextDayIsSuccessor | misc_utils/updt_to_yest.py:28 | no calendar date lies strictly between a date and the day after it |
| Calendar.NextPrevInverse | misc_utils/updt_to_yest.py:20 | the day after and the day before undo each other |
| Calendar.NextDayInRange | misc_utils/updt_to_yest.py:28 | the day after is within years 1 to 9999 for every date except 9999-12-31 |
| Calendar.PrevDayInRange | misc_utils/updt_to_yest.py:20 | the day before is within years 1 to 9999 for every date except 0001-01-01 |
| Calendar.NextDayOrdinal | misc_utils/updt_to_yest.py:28 | adding one day (Python's `timedelta(days=1)`, through the day ordinal) gives the day after: its ordinal is one more |
| Calendar.PrevDayOrdinal | misc_utils/updt_to_yest.py:20 | subtracting one day gives the day before: its ordinal is one less |
| Calendar.NextDayExamples | misc_utils/updt_to_yest.py:28 | 2024-02-28 → 2024-02-29, 2023-02-28 → 2023-03-01, 1900-02-28 → 1900-03-01, 2000-02-28 → 2000-02-29, 2024-04-30 → 2024-05-01, 2024-12-31 → 2025-01-01 |
| Calendar.FormatDate | misc_utils/updt_to_yest.py:21 | `%Y-%m-%d` text is ten characters with `-` at positions 4 and 7 |
| Calendar.ParseFormatDate | misc_utils/updt_to_yest.py:27 | reading the `%Y-%m-%d` text of a date gives the date back |
| Calendar.FormatParseDate | misc_utils/updt_to_yest.py:32 | a string that reads as a date is exactly that date's `%Y-%m-%d` text |
| Timestamp.Parse | misc_utils/updt_to_yest.py:56 | every value that reads is a valid date, time and offset |
| Timestamp.ParseFormat | misc_utils/updt_to_yest.py:56-58 | reading what `isoformat` writes gives back the same date, time to the microsecond, and offset |
| Timestamp.NoZInFormat | misc_utils/updt_to_yest.py:58 | `isoformat` never writes `Z` |
| UpdateToYesterday.ShiftKeepsTimeAndOffset | misc_utils/updt_to_yest.py:55-58 | a successful shift reads back with the target date and with the input's time of day and offset |
| UpdateToYesterday.ShiftFailsExactly | misc_utils/updt_to_yest.py:56-58 | the shift fails exactly when the input does not read, or the target is not three integers, or the target is not a calendar day; an impossible target is never rolled over |
| UpdateToYesterday.ShiftToFebruary30Fails | misc_utils/updt_to_yest.py:57-58 | `2024-02-30` reads as year 2024, month 2, day 30, and every shift to it fails |
| UpdateToYesterday.ShiftIdempotent | misc_utils/updt_to_yest.py:58 | shifting a shifted value to the same date returns it unchanged |
| UpdateToYesterday.ShiftZuluAsUtc | misc_utils/updt_to_yest.py:56 | a trailing `Z` shifts like `+00:00`, and the result ends in `+00:00`, not `Z` |
| UpdateToYesterday.ShiftDateOnly | misc_utils/updt_to_yest.py:56-58 | a date-only value becomes the target date at `T00:00:00`, without an offset |
| UpdateToYesterday.ParseTargetOfFormatDate | misc_utils/updt_to_yest.py:57 | the target-date reading accepts every `%Y-%m-%d` text and gives back its date |
| UpdateToYesterday.DayWindowIsOneDay | misc_utils/updt_to_yest.py:26-35 | the window exists exactly for readable dates other than 9999-12-31; it starts at the target text and ends before the day after, which is later and one ordinal on |
| UpdateToYesterday.YesterdayWindowEndsToday | misc_utils/updt_to_yest.py:19-21 | `yesterday` is the day before `today`, and yesterday's window ends exactly at `today` |
| UpdateToYesterday.UpdatePageDate | misc_utils/updt_to_yest.py:42-51 | the payload names only the given property; its date has `start` always and `end` exactly when the new end is truthy |
| UpdateToYesterday.PageStepUpdate | misc_utils/updt_to_yest.py:89-100 | a page is updated only if its start is truthy: the start is shifted to today, and an end is present exactly when the page had one, shifted the same way |
| UpdateToYesterday.SyncStopsAtFailure | misc_utils/updt_to_yest.py:89-100 | once a page raises, later pages change nothing |
| UpdateToYesterday.SyncUpdatesCounted | misc_utils/updt_to_yest.py:94-100 | updates are at most the pages with a start, and exactly that many when the run did not fail |
| UpdateToYesterday.SyncUpdatesFromPages | misc_utils/updt_to_yest.py:89-100 | every update issued is the update step of one of the pages |
| UpdateToYesterday.SyncUpdatesLandOnToday | misc_utils/updt_to_yest.py:97-100 | every update puts a page's start on today, with the time of day and offset that page had |
| UpdateToYesterday.UpdatePage | misc_utils/updt_to_yest.py:90-100 | one pass of the loop body computes exactly the page's step: skip without a start, raise on a `null` date or a value that does not shift, otherwise the update |
| UpdateToYesterday.UpdatePagesToToday | misc_utils/updt_to_yest.py:89-100 | the loop issues exactly the updates of the run, stops at the first failure, and issues no more updates than there are pages with a start |
| UpdateToYesterday.Run | misc_utils/updt_to_yest.py:60-100 | the main block queries the window from the day before `now` to `now`, then moves the returned pages to `now`'s date |
| Text.Capitalize | notion_pokemon.py:46 | a capitalised word keeps its length and its letters, starts with no lower-case letter and has no upper-case letter after the first |
| Text.Upper | notion_pokemon.py:114 | an upper-cased text keeps its length and its letters ignoring case, has no lower-case letter, and keeps every character that is not a lower-case letter |
| Text.JoinSplit | notion_pokemon.py:45-46 | joining the pieces of a split with the same separator gives the string back |
| Text.SplitJoin | notion_pokemon.py:45-46 | splitting a join of pieces free of the separator gives the pieces back |
| Text.ReplaceAbsent | notion_pokemon.py:47-58 | replacing a pattern that does not occur changes nothing |
| Text.ReplaceCharAt | notion_pokemon.py:62 | replacing a single character by another changes exactly its occurrences, position by position |
| PokemonFields.CapitalizedWordsHaveNoHyphen | notion_pokemon.py:45-46 | after split, capitalise and join, no `-` is left |
| PokemonFields.CapitalizedWordsAreCapitalized | notion_pokemon.py:45-46 | for a name without spaces, the space-separated words are the `-`-separated pieces, capitalised, each with an upper-case or non-letter start and no upper-case letter after |
| PokemonFields.ApplyReplacementsAbsent | notion_pokemon.py:47-58 | a name containing none of the patterns passes the replacement chain unchanged |
| PokemonFields.ChainOneFires | notion_pokemon.py:47-58 | when only one pair of the chain occurs, once, that occurrence alone is replaced, in chain order |
| PokemonFields.ProcessedMrMime | notion_pokemon.py:45-58 | `mr-mime` is displayed as `Mr. Mime` |
| PokemonFields.ProcessedJangmoO | notion_pokemon.py:45-58 | `jangmo-o` is displayed as `Jangmo-o` |
| PokemonFields.ProcessedHoOh | notion_pokemon.py:45-58 | `ho-oh` is displayed as `Ho-Oh` |
| PokemonFields.ProcessedNidoranF | notion_pokemon.py:45-58 | `nidoran-f` is displayed as `Nidoran♀` |
| PokemonFields.BulbapediaUrlShape | notion_pokemon.py:62 | the link is the fixed prefix, then the name with each space turned into `_` and every other character kept, then `_(Pokémon)`; it contains no space |
| PokemonFields.Sprite | notion_pokemon.py:67 | the sprite is the front sprite when that is present and non-empty, otherwise the official artwork |
| PokemonFields.TypesArray | notion_pokemon.py:40 | one type option per type, same length and order, each named after its type |
| PokemonFields.FirstEnglishIndex | notion_pokemon.py:108-112 | the position found holds an English entry and no earlier entry is English; none is found only when no entry is English |
| PokemonFields.FirstEnglishSelects | notion_pokemon.py:108-112 | the text chosen is that of the first English entry |
| PokemonFields.FirstEnglishAbsent | notion_pokemon.py:112 | the category is `""` when no genus is in English |
| PokemonFields.FlavorTextIsCleanedFirstEnglish | notion_pokemon.py:108-110 | the flavour text is the first English entry with each `\n`, `\f`, `\r` turned into a space and nothing else changed; it holds none of them, and it is empty when no entry is English |
| PokemonFields.GenerationIsLastSegment | notion_pokemon.py:114 | the generation is the upper-cased text after the last `-` (the whole name when there is none): no `-`, no lower-case letter, and the same letters as that text ignoring case |
| PokemonFields.GenerationIV | notion_pokemon.py:114 | `generation-iv` gives `IV` |
| PokemonPages.RecordOf | notion_pokemon.py:73-88 | a response yields a record exactly when it has the six base stats read; otherwise the creature is skipped |
| PokemonPages.RecordOfFields | notion_pokemon.py:40-88 | a new record has the prettified name, the link built from that name, the types in order, the six stats in order, the sprite with its fallback, the artwork, and no species details |
| PokemonPages.FetchedBounds | notion_pokemon.py:31-96 | at most one record per number, exactly one when every response arrives well-formed; each record is the record of a response in range, without species details |
| PokemonPages.Enriched | notion_pokemon.py:103-123 | the species pass adds the details when the species response for the record's number arrived and leaves the record otherwise untouched |
| PokemonPages.EnrichedDetails | notion_pokemon.py:106-118 | added details are the cleaned first English flavour text, the first English genus and the upper-cased generation suffix |
| PokemonPages.CreatePokemonDatabase | notion_pokemon.py:131-156 | the request is under the given page, with the given title and the fourteen-property schema, whose names are distinct |
| PokemonPages.PageMatchesSchema | notion_pokemon.py:136-151 | a page's properties carry exactly the schema's names in its order, each with the schema's kind; the body is quote, empty paragraph, caption, bookmark of the record's link |
| PokemonPages.LookupAt | notion_pokemon.py:174-189 | among distinct property names, looking a name up finds the value stored under it |
| PokemonPages.PagePropertyValues | notion_pokemon.py:170-189 | each of the fourteen properties of a page carries the record field its name promises |
| PokemonPages.PagesAppend | notion_pokemon.py:166 | the pages of two runs of records are the pages of each, in order |
| PokemonPages.PageOf | notion_pokemon.py:170-214 | a record has a page request exactly when the species pass reached it; the request goes into the given database with the record's sprite as icon and artwork as cover |
| PokemonPages.FirstUnenriched | notion_pokemon.py:166-176 | the position where the loop as written raises: every record before it is enriched, the record at it is not, and it is the end exactly when every record is enriched |
| PokemonPages.PagesAllEnriched | notion_pokemon.py:166-214 | with every record enriched there is one page per record, in order |
| PokemonPages.PagesAsWrittenIsEnrichedPrefix | notion_pokemon.py:166-228 | as written, the loop sends the pages of the records before the first one without species details, and nothing after it |
| PokemonPages.PagesAsWrittenWhenEnriched | notion_pokemon.py:166-228 | when every record is enriched, the written loop and the corrected one send the same pages |
| PokemonPages.UnenrichedRecordStopsPages | notion_pokemon.py:121-123 | a record whose species request failed, followed by an enriched one: as written no page is sent; corrected, the second record gets its page |
| PokemonPages.PagesLinkToTheirNames | notion_pokemon.py:175 | every page's bookmark is the Bulbapedia link of the name it shows |
| NotionPokemon.PokemonTable.FetchPokemon | notion_pokemon.py:26-96 | the first pass appends the fetched records for numbers 1 to 10, in order |
| NotionPokemon.PokemonTable.AddSpeciesInfo | notion_pokemon.py:103-123 | the second pass enriches, in place, every stored record whose species response arrived |
| NotionPokemon.PokemonTable.GetPokemon | notion_pokemon.py:20-123 | `get_pokemon` runs both passes, the second over every stored record |
| NotionPokemon.PokemonTable.CreateNotionPages | notion_pokemon.py:166-228 | the page loop as written: the requests of the records before the first one without species details, in order; it raises exactly when some record lacks them |
| NotionPokemon.PokemonTable.CreateNotionPagesSkipping | notion_pokemon.py:166-228 | the corrected loop: one request per enriched record, in order, skipping the others |
| NotionPokemon.FetchedNext | notion_pokemon.py:26-96 | the records fetched up to a number are those up to the number before, then that number's record when it yields one |
| NotionPokemon.FetchedAllEnriched | notion_pokemon.py:103-123 | the species pass reaches every fetched record exactly when a species response arrived for each record's number |
| NotionPokemon.PagesAsWrittenLinks | notion_pokemon.py:166-214 | every page the loop sends before it raises goes into the given database and links to the name it shows |
| NotionPokemon.FetchedLinks | notion_pokemon.py:62 | every fetched record links to the Bulbapedia page of its own name |
| NotionPokemon.PagesOfFetched | notion_pokemon.py:232-239 | for any range of numbers, the loop as written sends at most one page per number, one per record when every record is enriched, each into the given database and linking to the name it shows |
| NotionPokemon.RunScript | notion_pokemon.py:232-239 | the script requests the database with the default title, then sends the pages of the loop as written into the new database; it raises exactly when some fetched number has no species response, and otherwise sends one page per fetched record; at most ten pages, each linking to the name it shows |

## Left out

- HTTP and Notion calls (`requests.get`, `notion.databases.query`, `notion.databases.create`, `notion.pages.create`, `notion.pages.update`) are not modelled. Their responses are inputs: `pages`, `api`, `species` and the new database id. Their requests are returned values. A failed request is a missing map entry. So is a species response that arrives malformed (no `genera` or no `generation.name`): `notion_pokemon.py:121-123` catches that like a failed request.
- Environment and credential loading (`load_dotenv`, `os.getenv`, client construction) is configuration and is not modelled.
- `datetime.now` and the Asia/Karachi zone rules are not modelled. `Run` takes the local calendar date of "now" as a parameter.
- The rate-limit `sleep` and all console output are side effects with no effect on the requests, and are not modelled.
- The commented-out backup block (`misc_utils/updt_to_yest.py:69-86`) is unused and not modelled.
- The trailing sorted query (`notion_pokemon.py:241-249`) only reads the database and is not modelled.
- The failure of a `notion.pages.create` call is caught and logged, so it does not change the requests sent. It is not modelled.
- Timestamp.Parse: reads only `YYYY-MM-DD` alone, or followed by `T` and `HH:MM`, `HH:MM:SS`, `HH:MM:SS.fff` or `HH:MM:SS.ffffff`, optionally followed by a `±HH:MM` offset. That is the form Notion stores and `isoformat` writes. Python also accepts other separators, seconds in offsets, offset minutes of 60 or more while the whole offset stays under 24 hours (`+05:75`), and other fraction lengths; those are not modelled.
- Calendar.ParseDate: `strptime("%Y-%m-%d")` also accepts one-digit months and days; only the zero-padded form is modelled.
- Calendar.FormatDate: pads the year to four digits. The platform `strftime` may not pad years below 1000.
- Text.Capitalize: `str.capitalize` and `str.upper` are modelled on ASCII letters only. The non-ASCII replacement targets are opaque literals.
- UpdateToYesterday.ParseTargetDate: `int()` also accepts signs, surrounding whitespace and underscores; only decimal digits are modelled.
- UpdateToYesterday.PageStep: a JSON `null` date object makes `.get('start')` raise. It is modelled as the failure `NullDateObject`. A property that is not a date property is not modelled.
- UpdateToYesterday.Run: requires `now` to be after 0001-01-01. On that date `datetime.now() - timedelta(days=1)` raises `OverflowError`; the clock cannot produce it.
- PokemonPages.RecordOf: any other malformed response (a missing key, a wrong type) is folded into "no response" for that number.

## Findings

| source | as written | input that shows it | evidently intended | confidence | as-written member | corrected member |
|---|---|---|---|---|---|---|
| notion_pokemon.py:170-214 | the page request reads `flavor-text`, `category` and `generation` outside the `try` (lines 176, 179, 195). For a record whose species request failed (lines 121-123) this raises `KeyError` and ends the script, so no later record gets a page either | a record whose species request failed followed by an enriched record: no page is sent at all | build the request inside the `try`, so the failing record is reported and skipped and later records still get their pages | not executed | PokemonPages.PagesAsWritten (computed by NotionPokemon.PokemonTable.CreateNotionPages; shown by PokemonPages.UnenrichedRecordStopsPages) | PokemonPages.Pages (computed by NotionPokemon.PokemonTable.CreateNotionPagesSkipping) |
