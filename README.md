# Film search: validators, film repository and search analytics

This project models the core of a small film-search web application.

- **Request validators** (`app/utils/validators.py`). Total functions normalise a year, a page number, a free-text query, a genre name and a year range.
- **Film repository** (`app/databases/db_mysql.py`, and the older copy `databases/db_mysql.py` with the same logic). These functions build the MySQL statements.
  - They turn the optional genre and year filters into a WHERE conjunction with its parameter list.
  - They wrap it into the release-year listing, `ORDER BY release_year DESC LIMIT … OFFSET …`.
  - They guard the title search and count against blank titles and build the `%title%` LIKE pattern.
  - They default the year range.
  - Every entry point falls back to `[]`, `0` or `(1900, 2100)` when the database call fails.
- **Search-analytics store** (`app/databases/db_mongo.py`). One document per normalised query text holds a search count and a last-search time.
  - Every search performs an upsert with increment.
  - Two readers return the top-N queries by count and by recency.
- **Page arithmetic**. The handlers compute `offset = (page - 1) * 10` and clamp the analytics `limit` to [1, 100].

Layout, one module per file:

| file | module | contents |
|---|---|---|
| `prelude.dfy` | `Prelude` | `Option`, `Result`, `Min`, `Max` |
| `py.dfy` | `Py` | the Python built-ins the core relies on, listed below the table |
| `validators.dfy` | `Validators` | the five validators over a `Raw` request value (`None`, an `int` or a `str`) |
| `paging.dfy` | `Paging` | page → offset, the analytics limit clamp |
| `sql.dfy` | `Sql` | the statements as structured values, listed below the table |
| `film_repository.dfy` | `FilmRepository` | the repository entry points; the WHERE assembly is a method that appends to the predicate and parameter lists, as the code does |
| `search_analytics.dfy` | `SearchAnalytics` | class `QueryLog`, described below the table |

The Python built-ins in `Py` are:
- truthiness;
- `str.isspace`, `str.strip` and `str.lower`;
- `str(int)`;
- `int(str)`, with its sign and underscore rules. It skips the ASCII blanks (space, `\t`, `\n`, `\v`, `\f`, `\r`) and the non-ASCII whitespace around the number, but not the information separators U+001C..U+001F, which `str.strip` removes; a separator anywhere makes `int()` fail. It reads the decimal digits of every script (the Unicode 15.0 `Nd` category). CPython's limit on the number of digits in an `int`/`str` conversion is not modelled; see "## Left out".

The structured statements in `Sql` have these parts:
- a predicate list with `%s` placeholders;
- a parameter list;
- the order, limit and offset.

`Sql` also holds an evaluator over an in-memory table of joined rows. It covers:
- parameter binding, left to right;
- `LIKE`, with `%`, `_` and the backslash escape;
- `ORDER BY`: the server returns some sorted permutation of the selected rows, chosen per statement by the catalog's `arrange` function, since MySQL leaves the order of ties open; an insertion sort is the reference listing, and without ties every server's listing equals it;
- `LIMIT`/`OFFSET`;
- `COUNT(*)`;
- `MIN`/`MAX` with NULLs.

Class `QueryLog` in `SearchAnalytics` holds a `map` from key to record and a logical clock that stands for `datetime.now()`. Its methods update the map in place. The readers build their result lists in loops, as the code does.

A database call is a `Database` value: either `Reachable(catalog)` or `Unreachable`. A failed Mongo operation is a boolean parameter.

## Model

| member | source | states |
|---|---|---|
| Validators.ValidateYear | app/utils/validators.py:1-9 | a returned year lies in [1900, 2100] and is what `int()` makes of the input |
| Validators.ValidateYearExactly | app/utils/validators.py:3-7 | the result is `y` exactly when `int()` of the input is `y` and `y` is in range; the falsy, blank and `"None"` guards reject nothing `int()` accepts |
| Validators.NoneIsNotInt | app/utils/validators.py:3 | `int("None")` fails, so the `"None"` guard is subsumed by the `try` |
| Validators.ValidateYearText | app/utils/validators.py:1-9 | a year typed as text validates exactly as the same `int` |
| Validators.ValidatePage | app/utils/validators.py:12-18 | the page is at least 1; a value `int()` reads as positive comes back unchanged; a missing, zero, negative or unparseable value gives 1 |
| Validators.ValidateSeparators | app/utils/validators.py:3-18 | an information separator makes `int()` fail, so `"\x1c5"` is page 1 and `"\x1f1999"` is no year, while `" 1999 "` is the year 1999 |
| Validators.SpacedYear | app/utils/validators.py:6 | `int(" 1999 ")` strips the spaces and reads 1999 |
| Validators.ValidatePageFullWidth | app/utils/validators.py:15 | `int()` reads any Unicode decimal digit, so the full-width text "５" is page 5 |
| Validators.ValidatePageText | app/utils/validators.py:12-18 | a page number typed as text validates exactly as the same `int` |
| Validators.ValidateSearchQuery | app/utils/validators.py:21-29 | "" exactly for a `None`, empty or blank query; otherwise the first min(len, 100) characters of the strip, so never longer than 100 |
| Validators.ValidateSearchQueryKeeps | app/utils/validators.py:26-29 | a non-empty trimmed query of at most 100 characters passes unchanged |
| Validators.ValidateSearchQueryNotIdempotent | app/utils/validators.py:26-29 | a 102-character query whose cut ends in a blank changes again on a second call |
| Validators.ValidateGenreName | app/utils/validators.py:32-36 | `None` exactly for `None` or ""; `Some("")` exactly for a non-empty all-blank genre; otherwise the strip |
| Validators.ValidateYearRange | app/utils/validators.py:39-45 | each side is `None` or a year in range; two present years come out ordered; the pair is a permutation of the two validated years; when either year is missing, both pass through in their own places |
| Paging.ValidatedPageOffset | app/routers/search.py:41 | the offset of a validated page is non-negative, a multiple of 10, and page p+1 starts 10 rows after page p |
| Paging.AnalyticsLimit | app/routers/analytics.py:33 | the limit is in [1, 100]; an `int` is clamped to that range; anything else gives 5 |
| Py.Strip | app/utils/validators.py:23-26 | `str.strip()`: the result is no longer than the input, has no whitespace at either end, and is empty exactly when the input is all whitespace |
| Py.StripAt | app/utils/validators.py:26 | the strip is a slice of the input with only whitespace around it |
| Py.StripUnique | app/utils/validators.py:26 | any split into whitespace, a trimmed middle and whitespace is the one the strip finds |
| Py.StripIdempotent | app/utils/validators.py:26 | stripping twice is stripping once |
| Py.StripTrimmed | app/utils/validators.py:26 | a string without whitespace at either end is its own strip |
| Py.StripPadded | app/databases/db_mongo.py:21 | whitespace added at either end is stripped away again |
| Py.StripLower | app/databases/db_mongo.py:21 | stripping and lower-casing commute |
| Py.LowerIdempotent | app/databases/db_mongo.py:21 | lower-casing twice is lower-casing once |
| Py.LowerAppend | app/databases/db_mongo.py:21 | lower-casing distributes over concatenation |
| Py.LowerCharFacts | app/databases/db_mysql.py:237 | lower-casing keeps whitespace, `%` and `_` where they are and is idempotent per character |
| Py.ParseIntText | app/utils/validators.py:6 | `int(str(n)) == n` for every integer, with no limit on the number of digits |
| Py.ParseNonNumeric | app/utils/validators.py:6 | trimmed text that starts with neither a decimal digit (of any script) nor a sign makes `int()` fail |
| Py.ParseInt | app/utils/validators.py:6 | `int(str)`: all-whitespace text fails; a success means the stripped text ends in a decimal digit and starts with a digit or a sign, and the text holds no information separator U+001C..U+001F |
| Py.ParsePadded | app/utils/validators.py:6 | `int()` of a trimmed number padded with whitespace reads the number, unless the padding holds an information separator U+001C..U+001F, which makes it fail |
| Py.SeparatorBefore | app/utils/validators.py:6 | `str.strip()` removes a leading U+001C but `int()` fails on it: `int("\x1c5")` raises |
| Py.SeparatorAfter | app/utils/validators.py:6 | a trailing U+001F is stripped by `str.strip()` but makes `int()` fail |
| Py.NoBreakSpaceBefore | app/utils/validators.py:6 | `int()` skips non-ASCII whitespace: a no-break space before `5` still reads as 5 |
| Py.IntText | app/utils/validators.py:3 | `str(int)`: never empty, a leading minus exactly for a negative number, ASCII digits after it |
| Py.Lower | app/databases/db_mongo.py:21 | `str.lower()` maps each character to one character, so the length is kept |
| Py.IntTextShape | app/utils/validators.py:3 | `str(n)` of an `int` is never blank and never `"None"` |
| Sql.Bind | app/databases/db_mysql.py:53 | a successful binding used exactly one value per placeholder and gives one condition per predicate |
| Sql.BindAppend | app/databases/db_mysql.py:152 | binding a conjunction split in two binds each half against its own share of the parameters, in predicate order |
| Sql.BindSnoc | app/databases/db_mysql.py:135-150 | appending one predicate and its values to a bound list appends its condition |
| Sql.PlaceholdersAppend | app/databases/db_mysql.py:152 | placeholder counts add up over concatenation |
| Sql.Sort | app/databases/db_mysql.py:83 | one sorted listing (the reference the tie-free results are stated against): a permutation of its input, and ordered |
| Sql.Insert | app/databases/db_mysql.py:83 | inserting into an ordered listing keeps it ordered and adds exactly one copy of the row |
| Sql.FilterCount | app/databases/db_mysql.py:158 | filtering keeps every copy of an accepted row and no copy of a rejected one |
| Sql.Window | app/databases/db_mysql.py:83 | `LIMIT limit OFFSET offset`: at most `limit` rows, those from position `offset` on |
| Sql.WindowsAdjacent | app/databases/db_mysql.py:83 | two consecutive windows make up the window that spans both |
| Sql.SelectMeaning | app/databases/db_mysql.py:152 | a WHERE clause whose conditions mean a test selects exactly the rows that test keeps |
| Sql.HoldsAllSnoc | app/databases/db_mysql.py:152 | an `AND`-joined clause holds exactly when both of its parts hold |
| Sql.MinOf | app/databases/db_mysql.py:115 | `MIN` skips NULLs, is NULL only when every value is NULL, and is a present value no greater than any other |
| Sql.MaxOf | app/databases/db_mysql.py:115 | `MAX` skips NULLs, is NULL only when every value is NULL, and is a present value no smaller than any other |
| Sql.LikeContains | app/databases/db_mysql.py:237 | `s LIKE %t%` with a `t` free of `%`, `_` and backslash holds exactly when `t` occurs in `s` |
| Sql.LikeLiteralPrefix | app/databases/db_mysql.py:237 | `s LIKE t%` with a `t` free of `%`, `_` and backslash holds exactly when `t` is a prefix of `s` |
| Sql.LikeLeadingPercent | app/databases/db_mysql.py:237 | `s LIKE %q` holds exactly when a suffix of `s` matches `q` |
| Sql.LikeEscapes | app/databases/db_mysql.py:237 | a backslash in the pattern makes the next character literal, so `a\b` matches `ab` and not itself, and `a\\b` matches `a\b` |
| Sql.ListingPage | app/databases/db_mysql.py:72-89 | a successful listing returns row `offset + k` of the server's listing of the selected rows as its row `k`, as many rows as that window holds; the page is in statement order and each row is a table row satisfying the bound WHERE clause |
| Sql.SortedPage | app/databases/db_mysql.py:83 | a window of a filtered, sorted listing is sorted and holds only accepted table rows |
| Sql.Execute | app/databases/db_mysql.py:44-59 | a listing runs exactly when LIMIT and OFFSET are non-negative and the parameters bind, and returns at most LIMIT rows; a count runs exactly when its WHERE clause is non-empty and binds, and counts no more rows than the table has; the year bounds run exactly without parameters |
| Sql.Listing | app/databases/db_mysql.py:83 | the rows a statement selects, in the order the server returns them: sorted by the statement's order and a permutation of the selection |
| Sql.ListingCoversEveryOrder | app/databases/db_mysql.py:83 | every sorted reordering of the selection is the listing of some server |
| Sql.SortedUnique | app/databases/db_mysql.py:83 | without ties on the order, two sorted permutations of the same rows are equal |
| Sql.ListingIsSort | app/databases/db_mysql.py:83 | without ties on the order, every server returns the one sorted listing |
| FilmRepository.BaseQueryPage | app/databases/db_mysql.py:62-91 | a successful base listing returns the window at `offset` of the server's newest-first listing of the rows satisfying the conjunction, row `k` being listing row `offset + k`; each row satisfies the conjunction; the older copy at databases/db_mysql.py:41-53 is the same code |
| FilmRepository.FilmsBaseQuery | app/databases/db_mysql.py:62-91 | `_get_films_base_query`: a listing with the given conjunction, newest release first, with the given LIMIT and OFFSET |
| FilmRepository.Fetch | app/databases/db_mysql.py:26-59 | a refused connection gives the failure every entry point falls back from; a reachable server executes the statement |
| FilmRepository.NoWhereIsTautology | app/databases/db_mysql.py:80-89 | an empty conjunction without the WHERE keyword and `WHERE 1=1` return the same rows |
| FilmRepository.BindTautology | app/databases/db_mysql.py:152 | `1=1` binds with no parameters to a condition that always holds |
| FilmRepository.CountIsFullListing | app/databases/db_mysql.py:154-164 | a count statement counts exactly the rows of the full listing with the same WHERE clause and parameters |
| FilmRepository.NewFilms | app/databases/db_mysql.py:170-182 | the page of ten rows at `offset` of the server's newest-first listing of the whole table; [] when the database cannot be reached or the offset is negative; the older copy at databases/db_mysql.py:121-129 is the same code |
| FilmRepository.BuildGenreYearFilter | app/databases/db_mysql.py:135-152 | a genre conjunct exactly when the genre is non-blank, with the stripped genre as its parameter; then BETWEEN, `>=`, `<=` or no year conjunct by the truthiness of the bounds, with parameters in order; one parameter per placeholder; the bound clause holds exactly for the rows matching the filters. The count path and the listing path (app/databases/db_mysql.py:197-214) both call this one method, so they build identical predicates and parameters; the older copy's two assemblies (databases/db_mysql.py:88-105, 134-151) are the same code |
| FilmRepository.GenreFilter | app/databases/db_mysql.py:138-140 | no conjunct for a blank genre; otherwise `c.name = %s` with the stripped genre; the bound condition is the genre test |
| FilmRepository.AppendYearFilter | app/databases/db_mysql.py:142-150 | BETWEEN with [from, to] when both bounds are truthy, `>=` or `<=` when only one is, nothing otherwise, appended after the existing conjuncts; the clause then also tests the years |
| FilmRepository.CountFilmsByGenreYear | app/databases/db_mysql.py:129-167 | the number of joined rows matching the filters; 0 when the database cannot be reached; the older copy at databases/db_mysql.py:86-118 is the same code |
| FilmRepository.WhereMeaning | app/databases/db_mysql.py:152 | putting `1=1` in place of an empty conjunction keeps the clause's meaning |
| FilmRepository.SearchGenreYear | app/databases/db_mysql.py:185-221 | the page of ten rows at `offset` of a newest-first permutation of the matching rows; with no tie on the year among them, of the one sorted listing; [] when the database cannot be reached or the offset is negative; the older copy at databases/db_mysql.py:132-159 is the same code |
| FilmRepository.GenreYearCountIsListingLength | app/databases/db_mysql.py:129-221 | the count equals the length of the listing the pages are cut from |
| FilmRepository.GenreYearPageMatches | app/databases/db_mysql.py:185-221 | whatever order the server picks among ties, every row of a genre/year page is a table row matching the filters, and the page is newest release first |
| FilmRepository.PagesTile | app/routers/search.py:41 | pages 1..k cut from one listing at offsets (p - 1)·10 are its first 10·k rows, with none skipped or repeated |
| FilmRepository.NewFilmsPagesTile | app/databases/db_mysql.py:170-182 | when no two rows tie on the year, the pages of `new_films` fetched one by one are the first 10·k rows of the one sorted listing |
| FilmRepository.TieFreeNewFilms | app/databases/db_mysql.py:170-182 | when no two rows tie on the year, a page of `new_films` is a window of the one sorted listing |
| FilmRepository.TiedYearsPagesOverlap | app/databases/db_mysql.py:83 | with eleven rows of one year and a server that orders ties differently per query, page 2 repeats a row of page 1 and one row is on neither page |
| FilmRepository.ValidatedGenreFiltersAlike | app/utils/validators.py:32-36 | a genre normalised by `validate_genre_name` filters exactly like the raw genre |
| FilmRepository.ActionScenario | app/databases/db_mysql.py:129-221 | on rows Alpha (2001, Action), Beta (2001, Drama) and Gamma (2010, Action), `count_films_by_genre_year` gives 2 and `search_genre_year` gives Gamma, Alpha, whatever the server |
| FilmRepository.SortSwapsPair | app/databases/db_mysql.py:83 | two rows out of order come out of the sort swapped |
| FilmRepository.TitleSearchStatement | app/databases/db_mysql.py:255-266 | no statement exactly for a `None`, empty or blank title; otherwise the one title LIKE conjunct, ordered by title, with the caller's LIMIT and OFFSET and the parameter `%` + strip + `%`; the older copy at databases/db_mysql.py:184-192 is the same code |
| FilmRepository.TitlePattern | app/databases/db_mysql.py:242 | the LIKE argument is the stripped title between two `%` |
| FilmRepository.TitleCountStatement | app/databases/db_mysql.py:229-242 | no statement exactly for a blank title; otherwise a count with the `%` + strip + `%` parameter; the older copy at databases/db_mysql.py:164-175 is the same code |
| FilmRepository.BindTitle | app/databases/db_mysql.py:237 | the title pattern binds to the one LIKE condition on the lower-cased title |
| FilmRepository.TitlePage | app/databases/db_mysql.py:258-270 | an accepted title statement returns the requested window of the server's title-ordered listing of the title hits |
| FilmRepository.TitleCount | app/databases/db_mysql.py:232-243 | the title count statement returns the number of title hits |
| FilmRepository.SearchByTitle | app/databases/db_mysql.py:249-273 | [] for a blank title, an unreachable database, or a negative offset or limit; otherwise the window of the server's title-ordered listing of the title hits; the older copy at databases/db_mysql.py:182-199 is the same code |
| FilmRepository.CountFilmsByTitle | app/databases/db_mysql.py:224-246 | 0 for a blank title or an unreachable database; otherwise the number of title hits; the older copy at databases/db_mysql.py:162-179 is the same code |
| FilmRepository.TitleHitIsSubstring | app/databases/db_mysql.py:237-242 | for a title without `%`, `_` or backslash, a row is a hit exactly when its lower-cased title contains the lower-cased stripped text |
| FilmRepository.UnderscoreFindsEveryTitle | app/databases/db_mysql.py:242 | an unescaped `_` in the search text matches every non-empty title |
| FilmRepository.GetYearRange | app/databases/db_mysql.py:113-126 | (1900, 2100) on failure or when no year is present; otherwise the first bound is the smallest present year, or 1900 when that year is 0, and the second the largest, or 2100 when that year is 0; the older copy at databases/db_mysql.py:70-83 is the same code |
| FilmRepository.YearRangeOfEmptyTable | app/databases/db_mysql.py:119-123 | a table with no year gives (1900, 2100) |
| FilmRepository.YearRangeOfYears | app/databases/db_mysql.py:119-122 | with at least one year and no year 0, the range is exactly the smallest and largest year |
| FilmRepository.YearRangeDefaultsIndependently | app/databases/db_mysql.py:120-121 | each bound is defaulted on its own: years 0 and 1999 give (1900, 1999) |
| SearchAnalytics.NormalizeIdempotent | app/databases/db_mongo.py:21 | a key is already in normal form |
| SearchAnalytics.NormalizeIgnoresCaseAndPadding | app/databases/db_mongo.py:21 | texts that differ in case and surrounding whitespace share one key |
| SearchAnalytics.NormalizeNonBlank | app/databases/db_mongo.py:19-21 | a non-blank search has a non-empty key |
| SearchAnalytics.NormalizeQuery | app/databases/db_mongo.py:21 | the key is as long as the stripped query, has no blank at either end, and is empty exactly for an all-whitespace query |
| SearchAnalytics.KeyIsNormalForm | app/databases/db_mongo.py:21 | record keys are exactly the non-empty normal forms |
| SearchAnalytics.MongoLimit | app/databases/db_mongo.py:43 | `limit(n)`: 0 means all documents, a negative `n` means `-n`, never more than the collection holds |
| SearchAnalytics.QueryLog.constructor | app/databases/db_mongo.py:12-14 | an empty collection satisfying the store invariant |
| SearchAnalytics.QueryLog.SaveSearchQuery | app/databases/db_mongo.py:17-32 | nothing changes for a blank query or a failing store; otherwise the normalised key's record is upserted at the current time and the invariant is kept |
| SearchAnalytics.QueryLog.Upsert | app/databases/db_mongo.py:23-30 | the update with `$inc`, `$set` and upsert: the key gets count + 1 (1 when new) and the current time, and the clock moves on |
| SearchAnalytics.Upserted | app/databases/db_mongo.py:23-30 | the key set gains the key; its count becomes the old count + 1, or 1 for a new key, and its stamp the new time; every other record is unchanged |
| SearchAnalytics.UpsertedTwice | app/databases/db_mongo.py:23-30 | two saves of one key raise its count by 2 (to 2 for a new key) and add only that key |
| SearchAnalytics.UpsertKeepsWellFormed | app/databases/db_mongo.py:23-30 | an upsert keeps keys normal, counts at least 1, stamps in the past and stamps distinct |
| SearchAnalytics.QueryLog.SortedCursor | app/databases/db_mongo.py:42 | `sort(field, -1)` lists every key once, in descending field order |
| SearchAnalytics.QueryLog.GetPopularQueries | app/databases/db_mongo.py:35-55 | [] on a store error; otherwise `limit` entries (pymongo's reading) with query and stored count, distinct, by non-increasing count, and no left-out record counts more than any returned one |
| SearchAnalytics.QueryLog.PopularEntries | app/databases/db_mongo.py:46-51 | one entry per cursor document, in cursor order, with its query and count |
| SearchAnalytics.PopularRanking | app/databases/db_mongo.py:40-52 | the entries of a count-sorted prefix are distinct, ordered, and dominate every other record |
| SearchAnalytics.QueryLog.GetRecentQueries | app/databases/db_mongo.py:58-75 | [] on a store error; otherwise `limit` distinct queries by non-increasing last-search time, and no left-out record was searched later than any returned one |
| SearchAnalytics.RecentRanking | app/databases/db_mongo.py:63-72 | a time-sorted prefix is distinct, ordered, and dominates every other record |
| SearchAnalytics.PrefixDominates | app/databases/db_mongo.py:42-43 | a key left out of the first `m` entries of a sorted cursor ranks below each of them |
| SearchAnalytics.CursorStep | app/databases/db_mongo.py:42 | appending the largest unlisted key keeps the cursor sorted, distinct and above the unlisted keys |
| SearchAnalytics.LargestExists | app/databases/db_mongo.py:42 | a non-empty set of keys has one with the largest field value |
| SearchAnalytics.SameQueryTwice | app/databases/db_mongo.py:21-29 | searching a text and then its lower-cased form with a trailing blank leaves one record counted twice more |
| SearchAnalytics.SameKeyAgain | app/databases/db_mongo.py:19-21 | a non-blank text and its lower-cased form with a trailing blank are both non-blank searches with the same key |
| SearchAnalytics.SearchAThenB | app/databases/db_mongo.py:23-30 | searching `a`, `a`, `b` on a fresh collection gives `a` count 2 and `b` count 1 |
| SearchAnalytics.ThreeUpserts | app/databases/db_mongo.py:23-30 | the three upserts of that scenario, computed on the map |
| SearchAnalytics.TopQueryScenario | app/databases/db_mongo.py:35-52 | after `a`, `a`, `b` the single most popular query is `a` with count 2 |
| SearchAnalytics.TopOfTwo | app/databases/db_mongo.py:40-52 | with counts 2 and 1, a one-entry answer meeting the popular-queries contract is the first key |

## Left out

- Connections and configuration are not modelled: `get_db_connection`, `pymysql.connect`, `MongoClient`, `load_dotenv` and the environment variables. A database call is a `Database` value, reachable with its tables or unreachable. A Mongo call is a `stored`/`reachable` flag. Every path that catches an exception is one branch on that value.
- Of all execution errors, only the unreachable server arises in the model. The statements the repository builds always bind, and the request handlers always pass non-negative offsets. A negative OFFSET or LIMIT is still modelled as a server error, and `select_query` returns `[]` for it.
- `get_categories_with_stats` is not modelled. It is a fixed aggregate query that only degrades to `[]`.
- Logging is not modelled, and neither is the closing of cursors and connections.
- The SQL text itself is not modelled. Statements are structured values: predicate list, parameters, order, limit and offset. Keyword spelling and whitespace inside the SQL are left out.
- FilmRepository.NewFilmsPagesTile: the tiling of `new_films` pages is promised only when no two rows share a release year. Each page is its own query, and MySQL may order tied rows differently in each, so with ties a row can appear on two pages and another on none; `FilmRepository.TiedYearsPagesOverlap` exhibits this on eleven rows from one year. The same holds for the genre/year and title pages, for which no tiling is stated.
- Mongo leaves the order of documents with equal sort fields unspecified. The model makes it a nondeterministic choice in `SortedCursor`, and the reader contracts hold for every such choice.
- `LIKE` collation is not modelled. `LOWER` is `Py.Lower`, which maps ASCII, Latin-1 and basic Cyrillic letters only. Title order compares character codes rather than using a collation.
- Sql.Holds: `c.name = %s` compares the category text exactly, while MySQL's default collation also equates names that differ in case, accents or trailing spaces.
- The `Catalog` keeps the table's release years (`releaseYears`, read by `get_year_range`) apart from the joined rows the listings read, and nothing ties the two together. A film whose year is NULL is therefore absent from the listings but counts as NULL in the year range.
- Py.Lower: the rest of the Unicode case mapping is not modelled, including multi-character lowerings.
- `datetime.now()` is a logical clock in `QueryLog` that advances by one on every save. Concurrent writers and the atomicity of the upsert are not modelled. Because the clock strictly increases, no two records share a stamp (the `WellFormed` invariant). Real `datetime.now()` values stored as BSON dates have millisecond precision and can coincide or go backwards. No reader contract depends on distinct stamps.
- Documents without a `query` field cannot exist in the model, so the `"query" in doc` test and the `doc.get("count", 0)` default always see a stored key and count.
- `int()` on a `float` is not modelled. Validator inputs are `None`, an `int` or a `str`.
- CPython's limit on decimal conversions between `int` and `str` is not modelled. The limit is 4300 digits by default since Python 3.11 (and 3.7.14, 3.8.14, 3.9.14, 3.10.7). It is runtime configuration: `sys.set_int_max_str_digits` or `PYTHONINTMAXSTRDIGITS` can change it, and 0 removes it. The model behaves as with the limit removed. Above it:
- Validators.ValidatePage: Python's `int(page)` raises `ValueError` for a text of more than 4300 digits, so `validate_page_param` returns 1; the model returns the number.
- Validators.ValidateYear: `str(year)` in the guard raises `ValueError` outside the `try` for an `int` of more than 4300 digits, so `validate_year` raises; the model returns `None`.
- Py.ParseInt: Python's `int()` rejects a digit run of more than 4300 digits; the model accepts it.
- Py.IntText: Python's `str()` raises `ValueError` for an `int` of more than 4300 digits; the model is total.
- Py.ParseIntText: `int(str(n)) == n` holds in Python only for `n` of at most 4300 digits; the model states it for every `n`.
- The FastAPI routers, templates, static files, exception handlers and startup are not modelled. Only the offset arithmetic (`app/routers/search.py:41`, `app/routers/home.py:19`) and the analytics limit clamp (`app/routers/analytics.py:33`) are lifted into `Paging`.
- The older copy `databases/db_mysql.py` is not modelled separately. Its functions are the same code with a positional genre argument, so the same members model both files.
