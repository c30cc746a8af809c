/**
 * The film repository: the statements each entry point sends to MySQL, how
 * the optional genre and year filters become a WHERE conjunction with its
 * parameter list, and the empty or default value every entry point falls
 * back to when the database call fails.
 */
module FilmRepository {
  import opened Prelude
  import opened Py
  import opened Validators
  import opened Paging
  import opened Sql

  /** The MySQL server as one call sees it: reachable with its tables, or refusing the connection. */
  datatype Database = Reachable(catalog: Catalog) | Unreachable

  /**
   * `get_db_connection` followed by `select_query`. A refused connection and
   * an error while executing both end in `Failure`: the entry point's
   * `except` and `select_query`'s `return []` lead to the same fallback.
   * Its `ensures` only ties it to `Execute`; the entry points' contracts say
   * what the answer means.
   */
  function Fetch(db: Database, st: Statement): (r: Result<Answer>)
    ensures db.Unreachable? ==> r == Failure
    ensures db.Reachable? ==> r == Execute(st, db.catalog)
  {
    match db
    case Unreachable => Failure
    case Reachable(c) => Execute(st, c)
  }

  // ---------------------------------------------------------------- base listing

  /**
   * `_get_films_base_query`: the film listing, newest release first, one page
   * of `limit` rows from `offset`; an empty conjunction is written without
   * the WHERE keyword. Its `ensures` describe the statement built;
   * `BaseQueryPage` states which films that statement returns.
   */
  function FilmsBaseQuery(where: seq<Pred>, offset: int, limit: int := PageSize): (q: Query)
    ensures q.FilmSelect? && q.where == where && q.order == ReleaseYearDesc
    ensures q.limit == limit && q.offset == offset
  {
    FilmSelect(where, ReleaseYearDesc, limit, offset)
  }

  /**
   * Whatever its conjunction, a base listing that succeeds returns the
   * window at `offset` of the server's newest-first listing of the rows that
   * satisfy the conjunction: as many rows as the window holds (at most
   * `limit`), row `k` being row `offset + k` of the listing.
   */
  lemma BaseQueryPage(where: seq<Pred>, params: seq<Param>, offset: int, limit: int, c: Catalog)
    requires Execute(Statement(FilmsBaseQuery(where, offset, limit), params), c).Ok?
    ensures var st := Statement(FilmsBaseQuery(where, offset, limit), params);
      var sel := Select(c.rows, Bind(where, params).value);
      var page := Execute(st, c).value.films;
      && |page| == Min(limit, |sel| - Min(offset, |sel|))
      && (forall k :: 0 <= k < |page| ==> page[k] == Listing(st, c, ReleaseYearDesc, sel)[offset + k])
      && SortedBy(ReleaseYearDesc, page)
      && forall f :: f in page ==> f in c.rows && HoldsAll(Bind(where, params).value, f)
  {
    var st := Statement(FilmsBaseQuery(where, offset, limit), params);
    assert st.query == FilmSelect(where, ReleaseYearDesc, limit, offset);
    ListingPage(st, c);
    var sel := Select(c.rows, Bind(where, params).value);
    var page := Execute(st, c).value.films;
    assert |page| == Min(limit, |sel| - Min(offset, |sel|));
    assert forall k :: 0 <= k < |page| ==> page[k] == Listing(st, c, ReleaseYearDesc, sel)[offset + k];
  }

  /**
   * Leaving the WHERE keyword out and writing `WHERE 1=1` select the same
   * rows, all of them: the listing path and the count path filter
   * identically when no filter is active.
   */
  lemma NoWhereIsTautology(c: Catalog)
    ensures Bind([], []) == Ok([]) && Bind([Tautology], []) == Ok([Always])
    ensures Select(c.rows, []) == c.rows == Select(c.rows, [Always])
  {
    BindTautology();
    assert Bind([], []) == Ok([]);
    forall f ensures HoldsAll([Always], f) && HoldsAll([], f) {
      assert Holds([Always][0], f);
    }
    FilterKeepsAll(c.rows, f => HoldsAll([Always], f));
    FilterKeepsAll(c.rows, f => HoldsAll([], f));
  }

  /** `WHERE 1=1` binds, with no parameters, to the one conjunct that always holds. */
  lemma BindTautology()
    ensures Bind([Tautology], []) == Ok([Always])
  {
    var none: seq<Param> := [];
    assert [Tautology][0] == Tautology && [Tautology][1..] == [];
    assert none[..0] == none && none[0..] == none;
    assert Bind([], none) == Ok([]);
    assert [Always] + [] == [Always];
  }

  /**
   * A count statement counts exactly the rows of the full listing with the
   * same conjunction and parameters (offset 0, a limit no smaller than the
   * table).
   */
  lemma CountIsFullListing(where: seq<Pred>, params: seq<Param>, c: Catalog, limit: int)
    requires where != [] && Bind(where, params).Ok?
    requires limit >= |c.rows|
    ensures Execute(Statement(FilmCount(where), params), c).Ok?
    ensures Execute(Statement(FilmCount(where), params), c).value.n
         == |Execute(Statement(FilmsBaseQuery(where, 0, limit), params), c).value.films|
  {
    var st := Statement(FilmsBaseQuery(where, 0, limit), params);
    var sel := Select(c.rows, Bind(where, params).value);
    var all := Listing(st, c, ReleaseYearDesc, sel);
    assert |all| == |multiset(all)| == |multiset(sel)| == |sel|;
    assert |Window(all, 0, limit)| == |all|;
  }

  /** The statement `new_films` sends for the page at `offset`. */
  function NewFilmsStatement(offset: int): Statement {
    Statement(FilmsBaseQuery([], offset), [])
  }

  /**
   * `new_films`: the page of ten rows at `offset` of the server's
   * newest-first listing of the whole catalog; [] on failure.
   */
  function NewFilms(db: Database, offset: int := 0): (r: seq<Film>)
    ensures db.Unreachable? || offset < 0 ==> r == []
    ensures db.Reachable? && offset >= 0 ==>
      r == Window(Listing(NewFilmsStatement(offset), db.catalog, ReleaseYearDesc, db.catalog.rows), offset, PageSize)
  {
    match Fetch(db, NewFilmsStatement(offset))
    case Ok(Films(fs)) =>
      assert Select(db.catalog.rows, []) == db.catalog.rows by {
        FilterKeepsAll(db.catalog.rows, f => HoldsAll([], f));
      }
      fs
    case _ => []
  }

  /** Filtering with a test every row passes keeps every row. */
  lemma {:induction false} FilterKeepsAll(rows: seq<Film>, keep: Film -> bool)
    requires forall f :: keep(f)
    ensures Filter(rows, keep) == rows
  {
    if rows != [] {
      FilterKeepsAll(rows[1..], keep);
      assert rows == [rows[0]] + rows[1..];
    }
  }

  // ---------------------------------------------------------------- genre and years

  /**
   * What the genre and year filters mean for one joined row: the category
   * equals the stripped genre when a genre is given, and the release year
   * lies within each bound that is given (a bound of 0 counts as absent).
   */
  predicate MatchesGenreYear(genre: Option<string>, yearFrom: Option<int>, yearTo: Option<int>, f: Film) {
    GenreHolds(genre, f) && YearsHold(yearFrom, yearTo, f)
  }

  predicate GenreHolds(genre: Option<string>, f: Film) {
    !Blank(genre) ==> f.category == Strip(genre.value)
  }

  predicate YearsHold(yearFrom: Option<int>, yearTo: Option<int>, f: Film) {
    && (IntTruthy(yearFrom) ==> f.releaseYear >= yearFrom.value)
    && (IntTruthy(yearTo) ==> f.releaseYear <= yearTo.value)
  }

  /** The joined rows the genre and year filters let through, in table order. */
  function MatchingGenreYear(rows: seq<Film>, genre: Option<string>, yearFrom: Option<int>, yearTo: Option<int>): seq<Film> {
    Filter(rows, f => MatchesGenreYear(genre, yearFrom, yearTo, f))
  }

  /** The full genre/year listing, newest release first. */
  function GenreYearListing(rows: seq<Film>, genre: Option<string>, yearFrom: Option<int>, yearTo: Option<int>): seq<Film> {
    Sort(ReleaseYearDesc, MatchingGenreYear(rows, genre, yearFrom, yearTo))
  }

  /**
   * The WHERE assembly shared by `count_films_by_genre_year` and
   * `search_genre_year`: a genre conjunct when the genre has a non-blank
   * strip, then at most one year conjunct (BETWEEN when both bounds are
   * truthy, otherwise `>=` or `<=` for the one that is); parameters follow
   * the conjuncts, one per placeholder, and the bound conjunction means
   * exactly `MatchesGenreYear`.
   */
  method BuildGenreYearFilter(genre: Option<string>, yearFrom: Option<int>, yearTo: Option<int>)
    returns (parts: seq<Pred>, params: seq<Param>)
    ensures |parts| == (if Blank(genre) then 0 else 1) + (if IntTruthy(yearFrom) || IntTruthy(yearTo) then 1 else 0)
    ensures CategoryIs in parts <==> !Blank(genre)
    ensures !Blank(genre) ==> parts[0] == CategoryIs && |params| >= 1 && params[0] == Str(Strip(genre.value))
    ensures IntTruthy(yearFrom) && IntTruthy(yearTo) ==>
      parts[|parts| - 1] == YearBetween && |params| >= 2 &&
      params[|params| - 2..] == [Int(yearFrom.value), Int(yearTo.value)]
    ensures IntTruthy(yearFrom) && !IntTruthy(yearTo) ==>
      parts[|parts| - 1] == YearFrom && |params| >= 1 && params[|params| - 1] == Int(yearFrom.value)
    ensures !IntTruthy(yearFrom) && IntTruthy(yearTo) ==>
      parts[|parts| - 1] == YearUpTo && |params| >= 1 && params[|params| - 1] == Int(yearTo.value)
    ensures Placeholders(parts) == |params|
    ensures Bind(parts, params).Ok?
    ensures forall f :: HoldsAll(Bind(parts, params).value, f) <==> MatchesGenreYear(genre, yearFrom, yearTo, f)
  {
    ghost var cs;
    parts, params, cs := GenreFilter(genre);
    parts, params := AppendYearFilter(parts, params, yearFrom, yearTo, cs);
  }

  /** The genre half of the WHERE assembly: `c.name = %s` with the stripped genre, unless it is blank. */
  method GenreFilter(genre: Option<string>) returns (parts: seq<Pred>, params: seq<Param>, ghost cs: seq<Cond>)
    ensures Blank(genre) ==> parts == [] && params == []
    ensures !Blank(genre) ==> parts == [CategoryIs] && params == [Str(Strip(genre.value))]
    ensures Bind(parts, params) == Ok(cs)
    ensures forall f :: HoldsAll(cs, f) == GenreHolds(genre, f)
  {
    parts, params, cs := [], [], [];
    if genre.Some? && genre.value != [] && Strip(genre.value) != [] {
      var name := Strip(genre.value);
      BindSnoc(parts, CategoryIs, params, [Str(name)], cs, CategoryEq(name));
      forall f ensures HoldsAll(cs + [CategoryEq(name)], f) == GenreHolds(genre, f) {
        HoldsAllSnoc(cs, CategoryEq(name), f);
      }
      parts, params, cs := parts + [CategoryIs], params + [Str(name)], cs + [CategoryEq(name)];
    } else {
      assert Bind([], []) == Ok([]);
    }
  }

  /**
   * The year half of the WHERE assembly: BETWEEN with both bounds in order
   * when both are truthy, `>=` or `<=` when only one is, nothing when
   * neither is; the new conjunct is appended after the ones already there.
   */
  method AppendYearFilter(parts: seq<Pred>, params: seq<Param>, yearFrom: Option<int>, yearTo: Option<int>, ghost cs: seq<Cond>)
    returns (parts': seq<Pred>, params': seq<Param>)
    requires Bind(parts, params) == Ok(cs)
    ensures IntTruthy(yearFrom) && IntTruthy(yearTo) ==>
      parts' == parts + [YearBetween] && params' == params + [Int(yearFrom.value), Int(yearTo.value)]
    ensures IntTruthy(yearFrom) && !IntTruthy(yearTo) ==>
      parts' == parts + [YearFrom] && params' == params + [Int(yearFrom.value)]
    ensures !IntTruthy(yearFrom) && IntTruthy(yearTo) ==>
      parts' == parts + [YearUpTo] && params' == params + [Int(yearTo.value)]
    ensures !IntTruthy(yearFrom) && !IntTruthy(yearTo) ==> parts' == parts && params' == params
    ensures Bind(parts', params').Ok?
    ensures forall f :: HoldsAll(Bind(parts', params').value, f) == (HoldsAll(cs, f) && YearsHold(yearFrom, yearTo, f))
  {
    parts', params' := parts, params;
    if IntTruthy(yearFrom) && IntTruthy(yearTo) {
      var bounds := [Int(yearFrom.value), Int(yearTo.value)];
      var c := YearIn(yearFrom.value, yearTo.value);
      BindSnoc(parts, YearBetween, params, bounds, cs, c);
      forall f ensures HoldsAll(cs + [c], f) == (HoldsAll(cs, f) && YearsHold(yearFrom, yearTo, f)) {
        HoldsAllSnoc(cs, c, f);
      }
      parts', params' := parts' + [YearBetween], params' + bounds;
    } else if IntTruthy(yearFrom) {
      var c := YearAtLeast(yearFrom.value);
      BindSnoc(parts, YearFrom, params, [Int(yearFrom.value)], cs, c);
      forall f ensures HoldsAll(cs + [c], f) == (HoldsAll(cs, f) && YearsHold(yearFrom, yearTo, f)) {
        HoldsAllSnoc(cs, c, f);
      }
      parts', params' := parts' + [YearFrom], params' + [Int(yearFrom.value)];
    } else if IntTruthy(yearTo) {
      var c := YearAtMost(yearTo.value);
      BindSnoc(parts, YearUpTo, params, [Int(yearTo.value)], cs, c);
      forall f ensures HoldsAll(cs + [c], f) == (HoldsAll(cs, f) && YearsHold(yearFrom, yearTo, f)) {
        HoldsAllSnoc(cs, c, f);
      }
      parts', params' := parts' + [YearUpTo], params' + [Int(yearTo.value)];
    }
  }

  /**
   * `count_films_by_genre_year`: the number of joined rows the filters let
   * through (`WHERE 1=1` when no filter is active); 0 when the database
   * cannot be reached.
   */
  method CountFilmsByGenreYear(db: Database, genre: Option<string>, yearFrom: Option<int>, yearTo: Option<int>)
    returns (n: nat)
    ensures db.Unreachable? ==> n == 0
    ensures db.Reachable? ==> n == |MatchingGenreYear(db.catalog.rows, genre, yearFrom, yearTo)|
  {
    var parts, params := BuildGenreYearFilter(genre, yearFrom, yearTo);
    var where := if parts != [] then parts else [Tautology];
    var answer := Fetch(db, Statement(FilmCount(where), params));
    if answer.Ok? && answer.value.Count? {
      n := answer.value.n;
    } else {
      n := 0;
    }
    if db.Reachable? {
      var cs := WhereMeaning(parts, params, where, genre, yearFrom, yearTo);
      SelectMeaning(db.catalog.rows, cs, f => MatchesGenreYear(genre, yearFrom, yearTo, f));
    }
  }

  /** The conjunction the count path sends, `1=1` in place of nothing, still means `MatchesGenreYear`. */
  lemma WhereMeaning(parts: seq<Pred>, params: seq<Param>, where: seq<Pred>,
                     genre: Option<string>, yearFrom: Option<int>, yearTo: Option<int>) returns (cs: seq<Cond>)
    requires Placeholders(parts) == |params| && Bind(parts, params).Ok?
    requires forall f :: HoldsAll(Bind(parts, params).value, f) <==> MatchesGenreYear(genre, yearFrom, yearTo, f)
    requires where == if parts != [] then parts else [Tautology]
    ensures Bind(where, params) == Ok(cs)
    ensures forall f :: HoldsAll(cs, f) <==> MatchesGenreYear(genre, yearFrom, yearTo, f)
  {
    if parts == [] {
      assert params == [];
      BindTautology();
      cs := [Always];
      assert Bind(where, params) == Ok(cs);
      forall f ensures HoldsAll(cs, f) <==> MatchesGenreYear(genre, yearFrom, yearTo, f) {
        assert HoldsAll([], f);
        assert Holds(cs[0], f);
      }
    } else {
      cs := Bind(parts, params).value;
    }
  }

  /**
   * `search_genre_year`: the page of ten rows at `offset` of the server's
   * newest-first listing of the rows the filters let through (`listing`
   * names that listing); [] when the database cannot be reached or the
   * offset is negative (MySQL rejects a negative OFFSET). When no two
   * matching rows tie on the year, the page is cut from the one sorted
   * listing there is.
   */
  method SearchGenreYear(db: Database, genre: Option<string>, yearFrom: Option<int>, yearTo: Option<int>, offset: int := 0)
    returns (films: seq<Film>, ghost listing: seq<Film>)
    ensures db.Unreachable? || offset < 0 ==> films == []
    ensures db.Reachable? && offset >= 0 ==>
      && SortedBy(ReleaseYearDesc, listing)
      && Permutes(listing, MatchingGenreYear(db.catalog.rows, genre, yearFrom, yearTo))
      && films == Window(listing, offset, PageSize)
    ensures db.Reachable? && offset >= 0 && TieFree(ReleaseYearDesc, MatchingGenreYear(db.catalog.rows, genre, yearFrom, yearTo)) ==>
      films == Window(GenreYearListing(db.catalog.rows, genre, yearFrom, yearTo), offset, PageSize)
  {
    var parts, params := BuildGenreYearFilter(genre, yearFrom, yearTo);
    var st := Statement(FilmsBaseQuery(parts, offset), params);
    var answer := Fetch(db, st);
    if answer.Ok? && answer.value.Films? {
      films := answer.value.films;
    } else {
      films := [];
    }
    listing := [];
    if db.Reachable? {
      var matching := MatchingGenreYear(db.catalog.rows, genre, yearFrom, yearTo);
      SelectMeaning(db.catalog.rows, Bind(parts, params).value, f => MatchesGenreYear(genre, yearFrom, yearTo, f));
      listing := Listing(st, db.catalog, ReleaseYearDesc, matching);
      if TieFree(ReleaseYearDesc, matching) {
        ListingIsSort(st, db.catalog, ReleaseYearDesc, matching);
      }
    }
  }

  /** The count is the length of the full listing the pages are cut from. */
  lemma GenreYearCountIsListingLength(rows: seq<Film>, genre: Option<string>, yearFrom: Option<int>, yearTo: Option<int>)
    ensures |MatchingGenreYear(rows, genre, yearFrom, yearTo)| == |GenreYearListing(rows, genre, yearFrom, yearTo)|
  {
    var m := MatchingGenreYear(rows, genre, yearFrom, yearTo);
    assert |multiset(Sort(ReleaseYearDesc, m))| == |multiset(m)|;
  }

  /**
   * Every row of a genre/year page, whatever order the server picks among
   * ties, is a catalog row that matches the filters, and the page is
   * ordered newest release first.
   */
  lemma GenreYearPageMatches(rows: seq<Film>, genre: Option<string>, yearFrom: Option<int>, yearTo: Option<int>,
                             listing: seq<Film>, offset: nat)
    requires SortedBy(ReleaseYearDesc, listing) && Permutes(listing, MatchingGenreYear(rows, genre, yearFrom, yearTo))
    ensures var page := Window(listing, offset, PageSize);
      && SortedBy(ReleaseYearDesc, page)
      && forall f :: f in page ==> f in rows && MatchesGenreYear(genre, yearFrom, yearTo, f)
  {
    SortedPage(ReleaseYearDesc, listing, rows, f => MatchesGenreYear(genre, yearFrom, yearTo, f), offset, PageSize);
  }

  /** The first `k` pages of one listing (pages 1 to `k`), one after the other. */
  function FirstPages(s: seq<Film>, k: nat): seq<Film> {
    if k == 0 then [] else FirstPages(s, k - 1) + Window(s, PageOffset(k) as nat, PageSize)
  }

  /**
   * Pages cut from one and the same listing at the handlers' offsets
   * (0, 10, 20, ...) tile it: together, the first `k` pages are exactly its
   * first `10 k` rows, with no row skipped or repeated.
   */
  lemma {:induction false} PagesTile(s: seq<Film>, k: nat)
    ensures FirstPages(s, k) == s[..Min(k * PageSize, |s|)]
  {
    if k > 0 {
      PagesTile(s, k - 1);
      WindowsAdjacent(s, 0, PageOffset(k) as nat, PageSize);
      assert FirstPages(s, k - 1) == Window(s, 0, PageOffset(k) as nat);
    }
  }

  /**
   * A genre that `validate_genre_name` has normalised filters exactly like
   * the raw genre: "" and `None` both mean no genre filter downstream.
   */
  lemma ValidatedGenreFiltersAlike(genre: Option<string>, yearFrom: Option<int>, yearTo: Option<int>, f: Film)
    ensures MatchesGenreYear(ValidateGenreName(genre), yearFrom, yearTo, f) == MatchesGenreYear(genre, yearFrom, yearTo, f)
  {
    var v := ValidateGenreName(genre);
    if !Blank(genre) {
      StripIdempotent(genre.value);
    }
    if v.Some? && v.value != [] {
      StripIdempotent(genre.value);
    }
  }

  /** Pages 1 to `k` of `new_films`, each fetched by its own statement, one after the other. */
  function NewFilmsPages(db: Database, k: nat): seq<Film> {
    if k == 0 then [] else NewFilmsPages(db, k - 1) + NewFilms(db, PageOffset(k))
  }

  /**
   * When no two rows of the catalog tie on the release year, the pages of
   * `new_films` tile the newest-first listing whatever the server does:
   * pages 1 to `k` are exactly its first `10 k` rows.
   */
  lemma {:induction false} NewFilmsPagesTile(c: Catalog, k: nat)
    requires TieFree(ReleaseYearDesc, c.rows)
    ensures NewFilmsPages(Reachable(c), k) == FirstPages(Sort(ReleaseYearDesc, c.rows), k)
  {
    if k > 0 {
      NewFilmsPagesTile(c, k - 1);
      TieFreeNewFilms(c, PageOffset(k));
    }
  }

  /** Without ties, one page of `new_films` is a window of the sorted catalog. */
  lemma TieFreeNewFilms(c: Catalog, offset: int)
    requires TieFree(ReleaseYearDesc, c.rows) && offset >= 0
    ensures NewFilms(Reachable(c), offset) == Window(Sort(ReleaseYearDesc, c.rows), offset, PageSize)
  {
    ListingIsSort(NewFilmsStatement(offset), c, ReleaseYearDesc, c.rows);
  }

  /** `s` with its first and last rows exchanged. */
  function SwapEnds(s: seq<Film>): (r: seq<Film>)
    requires |s| >= 2
    ensures |r| == |s| && r[0] == s[|s| - 1] && r[|s| - 1] == s[0]
    ensures forall i :: 0 < i < |s| - 1 ==> r[i] == s[i]
    ensures Permutes(r, s)
  {
    var n := |s|;
    assert s == s[..1] + s[1..n - 1] + s[n - 1..];
    s[n - 1..] + s[1..n - 1] + s[..1]
  }

  /**
   * A server's tie order: eleven selected rows come back in table order for
   * the first page and with the first and last rows exchanged for every
   * later page.
   */
  function SwapAfterFirstPage(st: Statement, sel: seq<Film>): seq<Film> {
    if (st.query.FilmSelect? && st.query.offset == 0) || |sel| != 11 then sel else SwapEnds(sel)
  }

  /** Eleven rows from the same year 2006, told apart by their length: row `i` is `i` minutes long. */
  function TiedRows(): (r: seq<Film>)
    ensures |r| == 11
    ensures forall i :: 0 <= i < 11 ==> r[i].releaseYear == 2006 && r[i].length == i
  {
    seq(11, i => Film("", 2006, "", i, "", ""))
  }

  /**
   * With years that tie, the pages of `new_films` need not tile: with the
   * rows `TiedRows` and a server that breaks ties as `SwapAfterFirstPage`
   * does (as MySQL may), page 2 repeats the first row of page 1, and the
   * last row of the table is on neither page.
   */
  lemma TiedYearsPagesOverlap()
    ensures var db := Reachable(Catalog(TiedRows(), [], SwapAfterFirstPage));
      var p1 := NewFilms(db, PageOffset(1));
      var p2 := NewFilms(db, PageOffset(2));
      && |p1| == 10 && |p2| == 1
      && p2[0] == p1[0]
      && TiedRows()[10] !in p1 + p2
  {
    var rows := TiedRows();
    var c := Catalog(rows, [], SwapAfterFirstPage);
    TiedPages(c);
    var p1 := NewFilms(Reachable(c), 0);
    assert rows[10] !in p1 by {
      forall k | 0 <= k < 10 ensures p1[k] != rows[10] {
        assert p1[k] == rows[k];
      }
    }
    assert rows[10] != rows[0];
  }

  /** The first two pages of `new_films` from such a server. */
  lemma TiedPages(c: Catalog)
    requires c.rows == TiedRows() && c.arrange == SwapAfterFirstPage
    ensures NewFilms(Reachable(c), 0) == c.rows[..10]
    ensures NewFilms(Reachable(c), 10) == [c.rows[0]]
  {
    TiedListings(c);
  }

  /** The two listings such a server returns: table order at offset 0, the ends exchanged at offset 10. */
  lemma TiedListings(c: Catalog)
    requires c.rows == TiedRows() && c.arrange == SwapAfterFirstPage
    ensures Listing(NewFilmsStatement(0), c, ReleaseYearDesc, c.rows) == c.rows
    ensures Listing(NewFilmsStatement(10), c, ReleaseYearDesc, c.rows) == SwapEnds(c.rows)
  {
    var rows := c.rows;
    assert SortedBy(ReleaseYearDesc, rows);
    var swapped := SwapEnds(rows);
    assert SortedBy(ReleaseYearDesc, swapped) by {
      forall i | 0 <= i < 11 ensures swapped[i].releaseYear == 2006 {
        if 0 < i < 10 {
          assert swapped[i] == rows[i];
        }
      }
    }
  }

  /**
   * Three joined rows Alpha (2001, Action), Beta (2001, Drama) and Gamma
   * (2010, Action), whatever their other columns and whatever order the
   * server picks among ties, with `g` standing for the genre text "Action"
   * (any trimmed, non-empty name): the count for `g` is 2 and the first
   * page for `g` is Gamma then Alpha.
   */
  method ActionScenario(db: Database, g: string, alpha: Film, beta: Film, gamma: Film) returns (n: nat, page: seq<Film>)
    requires db.Reachable? && db.catalog.rows == [alpha, beta, gamma]
    requires g != [] && Trimmed(g)
    requires alpha.releaseYear == 2001 && alpha.category == g
    requires beta.releaseYear == 2001 && beta.category != g
    requires gamma.releaseYear == 2010 && gamma.category == g
    ensures n == 2
    ensures page == [gamma, alpha]
  {
    ActionRows(g, alpha, beta, gamma);
    n := CountFilmsByGenreYear(db, Some(g), None, None);
    ghost var listing;
    page, listing := SearchGenreYear(db, Some(g), None, None);
  }

  /** The rows `ActionScenario` filters to, and their one newest-first order. */
  lemma ActionRows(g: string, alpha: Film, beta: Film, gamma: Film)
    requires g != [] && Trimmed(g)
    requires alpha.releaseYear == 2001 && alpha.category == g
    requires beta.releaseYear == 2001 && beta.category != g
    requires gamma.releaseYear == 2010 && gamma.category == g
    ensures MatchingGenreYear([alpha, beta, gamma], Some(g), None, None) == [alpha, gamma]
    ensures TieFree(ReleaseYearDesc, [alpha, gamma])
    ensures Window(GenreYearListing([alpha, beta, gamma], Some(g), None, None), 0, PageSize) == [gamma, alpha]
  {
    ActionMatching(g, alpha, beta, gamma);
    SortSwapsPair(ReleaseYearDesc, alpha, gamma);
    assert Window([gamma, alpha], 0, PageSize) == [gamma, alpha];
    TwoYearsTieFree(alpha, gamma);
  }

  /** Two rows from different years cannot tie on the year. */
  lemma TwoYearsTieFree(x: Film, y: Film)
    requires x.releaseYear != y.releaseYear
    ensures TieFree(ReleaseYearDesc, [x, y])
  {
  }

  /** Of the three rows, the genre filter keeps Alpha and Gamma, in table order. */
  lemma ActionMatching(g: string, alpha: Film, beta: Film, gamma: Film)
    requires g != [] && Trimmed(g)
    requires alpha.category == g && beta.category != g && gamma.category == g
    ensures MatchingGenreYear([alpha, beta, gamma], Some(g), None, None) == [alpha, gamma]
  {
    StripTrimmed(g);
    var keep := f => MatchesGenreYear(Some(g), None, None, f);
    var rows := [alpha, beta, gamma];
    assert rows[1..] == [beta, gamma] && [beta, gamma][1..] == [gamma] && [gamma][1..] == [];
    assert Filter([gamma], keep) == [gamma];
    assert Filter([beta, gamma], keep) == [gamma];
  }

  /** Two rows out of order come out of the sort swapped. */
  lemma SortSwapsPair(o: Order, x: Film, y: Film)
    requires !Before(o, x, y)
    ensures Sort(o, [x, y]) == [y, x]
  {
    assert [x, y][1..] == [y] && [y][1..] == [];
    assert Sort(o, [y]) == [y];
    assert Insert(o, x, []) == [x];
    assert Insert(o, x, [y]) == [y] + Insert(o, x, [y][1..]);
  }

  // ---------------------------------------------------------------- titles

  /**
   * The LIKE argument the title functions pass: the stripped title between
   * two `%`. What matching it means is stated by `TitleHitIsSubstring`.
   */
  function TitlePattern(title: string): (p: string)
    ensures |p| == |Strip(title)| + 2
    ensures p[0] == '%' && p[|p| - 1] == '%' && p[1..|p| - 1] == Strip(title)
  {
    "%" + Strip(title) + "%"
  }

  /** `LOWER(f.title) LIKE LOWER(pattern)` for the pattern built from `title`. */
  predicate TitleHit(title: string, f: Film) {
    Like(Lower(f.title), Lower(TitlePattern(title)))
  }

  /** The rows a title search selects, in table order. */
  function TitleHits(rows: seq<Film>, title: string): seq<Film> {
    Filter(rows, f => TitleHit(title, f))
  }

  /**
   * The statement a title search sends: `None` for a `None`, empty or blank
   * title, which is answered without opening a connection; otherwise the
   * title LIKE conjunct in title order with the caller's LIMIT and OFFSET.
   * Its `ensures` describe the statement; `TitlePage` states what it returns.
   */
  function TitleSearchStatement(title: Option<string>, offset: int, limit: int): (r: Option<Statement>)
    ensures r.None? <==> Blank(title)
    ensures r.Some? ==> r.value.params == [Str("%" + Strip(title.value) + "%")]
    ensures r.Some? ==> r.value.query == FilmSelect([TitleLike], TitleAsc, limit, offset)
  {
    if Blank(title) then None
    else Some(Statement(FilmSelect([TitleLike], TitleAsc, limit, offset), [Str(TitlePattern(title.value))]))
  }

  /**
   * The statement a title count sends, `None` exactly when a title search
   * sends none; `TitleCount` states the number it returns.
   */
  function TitleCountStatement(title: Option<string>): (r: Option<Statement>)
    ensures r.None? <==> Blank(title)
    ensures r.Some? ==> r.value.params == [Str("%" + Strip(title.value) + "%")]
    ensures r.Some? ==> r.value.query == FilmCount([TitleLike])
  {
    if Blank(title) then None
    else Some(Statement(FilmCount([TitleLike]), [Str(TitlePattern(title.value))]))
  }

  /** Binding the title pattern gives the one conjunct `TitleHit`. */
  lemma BindTitle(title: string)
    ensures Bind([TitleLike], [Str(TitlePattern(title))]) == Ok([TitleMatches(TitlePattern(title))])
    ensures forall f :: HoldsAll([TitleMatches(TitlePattern(title))], f) == TitleHit(title, f)
  {
    var ps := [Str(TitlePattern(title))];
    var none: seq<Param> := [];
    assert [TitleLike][0] == TitleLike && [TitleLike][1..] == [];
    assert ps[..1] == ps && ps[1..] == none;
    assert Bind([], none) == Ok([]);
    assert BindOne(TitleLike, ps) == Some(TitleMatches(TitlePattern(title)));
    assert [TitleMatches(TitlePattern(title))] + [] == [TitleMatches(TitlePattern(title))];
    forall f ensures HoldsAll([TitleMatches(TitlePattern(title))], f) == TitleHit(title, f) {
      var cs := [TitleMatches(TitlePattern(title))];
      assert cs[0] == TitleMatches(TitlePattern(title));
      assert Holds(cs[0], f) == TitleHit(title, f);
      assert HoldsAll(cs, f) == Holds(cs[0], f);
    }
  }

  /**
   * A title page statement that MySQL accepts returns the window at
   * `offset` of the server's title-ordered listing of the title hits.
   */
  lemma TitlePage(title: string, offset: int, limit: int, c: Catalog)
    requires offset >= 0 && limit >= 0
    ensures var st := Statement(FilmSelect([TitleLike], TitleAsc, limit, offset), [Str(TitlePattern(title))]);
      Execute(st, c) == Ok(Films(Window(Listing(st, c, TitleAsc, TitleHits(c.rows, title)), offset, limit)))
  {
    BindTitle(title);
    SelectMeaning(c.rows, [TitleMatches(TitlePattern(title))], f => TitleHit(title, f));
  }

  /**
   * `search_by_title`: [] for a blank title; otherwise the window of `limit`
   * rows at `offset` of the server's title-ordered listing of the title
   * hits; [] when the call fails.
   */
  function SearchByTitle(db: Database, title: Option<string>, offset: int := 0, limit: int := PageSize): (r: seq<Film>)
    ensures Blank(title) || db.Unreachable? || offset < 0 || limit < 0 ==> r == []
    ensures !Blank(title) && db.Reachable? && offset >= 0 && limit >= 0 ==>
      r == Window(Listing(TitleSearchStatement(title, offset, limit).value, db.catalog, TitleAsc,
                          TitleHits(db.catalog.rows, title.value)), offset, limit)
  {
    match TitleSearchStatement(title, offset, limit)
    case None => []
    case Some(st) =>
      if db.Reachable? && offset >= 0 && limit >= 0 then
        TitlePage(title.value, offset, limit, db.catalog);
        Fetch(db, st).value.films
      else []
  }

  /** A title count statement returns the number of title hits. */
  lemma TitleCount(title: string, c: Catalog)
    ensures Execute(Statement(FilmCount([TitleLike]), [Str(TitlePattern(title))]), c)
         == Ok(Count(|TitleHits(c.rows, title)|))
  {
    BindTitle(title);
    SelectMeaning(c.rows, [TitleMatches(TitlePattern(title))], f => TitleHit(title, f));
  }

  /**
   * `count_films_by_title`: 0 for a blank title; otherwise the number of
   * rows the title search selects; 0 when the call fails.
   */
  function CountFilmsByTitle(db: Database, title: Option<string>): (n: nat)
    ensures Blank(title) || db.Unreachable? ==> n == 0
    ensures !Blank(title) && db.Reachable? ==> n == |TitleHits(db.catalog.rows, title.value)|
  {
    match TitleCountStatement(title)
    case None => 0
    case Some(st) =>
      if db.Reachable? then
        TitleCount(title.value, db.catalog);
        Fetch(db, st).value.n
      else 0
  }

  /**
   * For a title without LIKE wildcards or backslashes, a row is a hit exactly when its
   * lower-cased title contains the lower-cased stripped search text: the
   * search is a case-insensitive substring search.
   */
  lemma TitleHitIsSubstring(title: string, f: Film)
    requires NoWildcards(title)
    ensures TitleHit(title, f) <==> Contains(Lower(f.title), Lower(Strip(title)))
  {
    var t := Strip(title);
    var i := StripAt(title);
    assert NoWildcards(t) by {
      forall k | 0 <= k < |t| ensures t[k] != '%' && t[k] != '_' && t[k] != '\\' {
        assert t[k] == title[i + k];
      }
    }
    var lt := Lower(t);
    assert NoWildcards(lt) by {
      forall k | 0 <= k < |lt| ensures lt[k] != '%' && lt[k] != '_' && lt[k] != '\\' {
        LowerCharFacts(t[k]);
      }
    }
    LowerAppend("%" + t, "%");
    LowerAppend("%", t);
    assert Lower("%") == "%";
    assert Lower(TitlePattern(title)) == "%" + lt + "%";
    LikeContains(Lower(f.title), lt);
  }

  /**
   * LIKE wildcards in the search text are not escaped: the text `_` finds
   * every film with a non-empty title, including titles without `_`.
   */
  lemma UnderscoreFindsEveryTitle(f: Film)
    requires f.title != []
    ensures TitleHit("_", f)
  {
    var u := "_";
    assert Trimmed(u);
    StripTrimmed(u);
    LowerAppend("%" + u, "%");
    LowerAppend("%", u);
    LowerCharFacts('%');
    LowerCharFacts('_');
    var p := "%_%";
    assert Lower(TitlePattern(u)) == p;
    var s := Lower(f.title);
    LikeAnything(s[1..]);
    assert p[1..] == "_%" && p[1..][1..] == "%";
    assert Like(s, p[1..]);
    assert Like(s, p);
  }

  // ---------------------------------------------------------------- year range

  /** Python's `v if v else d` on a column value that may be NULL. */
  function OrDefault(v: Option<int>, d: int): (r: int)
    ensures IntTruthy(v) ==> r == v.value
    ensures !IntTruthy(v) ==> r == d
  {
    if IntTruthy(v) then v.value else d
  }

  /**
   * `get_year_range`: the smallest and largest `release_year`, each bound
   * replaced by its own default (1900, 2100) when it is NULL or 0, and
   * both defaults when the call fails. A row `i` holding the smallest year
   * fixes the first bound: that year, or 1900 when it is 0; with no year
   * present it is 1900. Likewise the largest year fixes the second bound,
   * with 2100 in place of 0 or of no year.
   */
  function GetYearRange(db: Database): (r: (int, int))
    ensures db.Unreachable? ==> r == (MinYear, MaxYear)
    ensures db.Reachable? && (forall i :: 0 <= i < |db.catalog.releaseYears| ==> db.catalog.releaseYears[i].None?) ==>
      r == (MinYear, MaxYear)
    ensures db.Reachable? ==> var ys := db.catalog.releaseYears;
      forall i :: 0 <= i < |ys| && ys[i].Some? && (forall j :: 0 <= j < |ys| && ys[j].Some? ==> ys[i].value <= ys[j].value) ==>
        r.0 == (if ys[i].value != 0 then ys[i].value else MinYear)
    ensures db.Reachable? ==> var ys := db.catalog.releaseYears;
      forall i :: 0 <= i < |ys| && ys[i].Some? && (forall j :: 0 <= j < |ys| && ys[j].Some? ==> ys[j].value <= ys[i].value) ==>
        r.1 == (if ys[i].value != 0 then ys[i].value else MaxYear)
  {
    match Fetch(db, Statement(YearBounds, []))
    case Ok(Bounds(lo, hi)) => (OrDefault(lo, MinYear), OrDefault(hi, MaxYear))
    case _ => (MinYear, MaxYear)
  }

  /** A table with no film, or only NULL years, gives the defaults (1900, 2100). */
  lemma YearRangeOfEmptyTable(c: Catalog)
    requires forall i :: 0 <= i < |c.releaseYears| ==> c.releaseYears[i].None?
    ensures GetYearRange(Reachable(c)) == (MinYear, MaxYear)
  {
    assert MinOf(c.releaseYears).None? && MaxOf(c.releaseYears).None?;
  }

  /**
   * With at least one year and no year 0, the range is exactly the smallest
   * and the largest year of the table.
   */
  lemma YearRangeOfYears(c: Catalog, k: nat)
    requires k < |c.releaseYears| && c.releaseYears[k].Some?
    requires forall i :: 0 <= i < |c.releaseYears| && c.releaseYears[i].Some? ==> c.releaseYears[i].value != 0
    ensures var r := GetYearRange(Reachable(c));
      && Some(r.0) in c.releaseYears && Some(r.1) in c.releaseYears
      && forall i :: 0 <= i < |c.releaseYears| && c.releaseYears[i].Some? ==> r.0 <= c.releaseYears[i].value <= r.1
  {
    var ys := c.releaseYears;
    var lo, hi := MinOf(ys), MaxOf(ys);
    assert lo.Some? && hi.Some?;
    var a :| 0 <= a < |ys| && ys[a] == lo;
    var b :| 0 <= b < |ys| && ys[b] == hi;
    assert Execute(Statement(YearBounds, []), c) == Ok(Bounds(lo, hi));
    assert GetYearRange(Reachable(c)) == (lo.value, hi.value);
  }

  /**
   * The defaults apply bound by bound: with years 0 and 1999 the smallest
   * year is falsy and becomes 1900 while the largest is kept.
   */
  lemma YearRangeDefaultsIndependently()
    ensures GetYearRange(Reachable(Catalog([], [Some(0), Some(1999)], (_, sel) => sel))) == (MinYear, 1999)
  {
    var ys: seq<Option<int>> := [Some(0), Some(1999)];
    assert ys[1..] == [Some(1999)] && ys[1..][1..] == [];
    assert MinOf(ys) == Some(0);
    assert MaxOf(ys) == Some(1999);
  }
}
