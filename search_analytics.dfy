/**
 * The search-analytics store: one MongoDB document per normalised query
 * text with a search count and the time of the last search, an
 * upsert-with-increment on every search, and the two top-N readers the
 * analytics endpoints show.
 */
module SearchAnalytics {
  import opened Prelude
  import opened Py
  import opened Validators

  /** The fields of one stored document besides its `query` key. */
  datatype Record = Record(count: int, lastSearched: nat)

  /** An entry of the popular-queries answer. */
  datatype Popular = Popular(query: string, count: int)

  /** The field a reader sorts on, descending. */
  datatype Field = Count | LastSearched

  function FieldOf(r: Record, field: Field): int {
    match field
    case Count => r.count
    case LastSearched => r.lastSearched
  }

  /**
   * The record key of a search: `query.strip().lower()`. It is as long as
   * the stripped query and has no blank at either end; it is empty exactly
   * for a blank query.
   */
  function NormalizeQuery(q: string): (r: string)
    ensures |r| == |Strip(q)| && Trimmed(r)
    ensures r == [] <==> AllSpace(q)
  {
    Lower(Strip(q))
  }

  /** A key is already in normal form: normalising twice is normalising once. */
  lemma NormalizeIdempotent(q: string)
    ensures NormalizeQuery(NormalizeQuery(q)) == NormalizeQuery(q)
  {
    StripLower(Strip(q));
    StripIdempotent(q);
    LowerIdempotent(Strip(q));
  }

  /**
   * Searches that differ only in letter case and surrounding whitespace
   * share one key: `left + lower(q) + right` with blank `left` and `right`
   * normalises like `q`.
   */
  lemma NormalizeIgnoresCaseAndPadding(q: string, left: string, right: string)
    requires AllSpace(left) && AllSpace(right)
    ensures NormalizeQuery(left + Lower(q) + right) == NormalizeQuery(q)
  {
    var s := left + Lower(q) + right;
    StripPadded(left, Lower(q), right);
    StripLower(s);
    LowerAppend(left + Lower(q), right);
    LowerAppend(left, Lower(q));
    LowerIdempotent(q);
    LowerKeepsSpace(left);
    LowerKeepsSpace(right);
    StripPadded(Lower(left), Lower(q), Lower(right));
    StripLower(q);
  }

  lemma LowerKeepsSpace(s: string)
    requires AllSpace(s)
    ensures AllSpace(Lower(s))
  {
    forall i | 0 <= i < |s| ensures IsSpace(Lower(s)[i]) {
      LowerCharFacts(s[i]);
    }
  }

  /** A search that is not blank has a non-empty key. */
  lemma NormalizeNonBlank(q: string)
    requires q != [] && Strip(q) != []
    ensures NormalizeQuery(q) != []
  {
  }

  /** pymongo's `limit(n)` on a cursor over `size` documents: 0 means no limit, a negative `n` means `-n`. */
  function MongoLimit(limit: int, size: nat): (r: nat)
    ensures r <= size
    ensures limit == 0 ==> r == size
    ensures limit != 0 ==> r == Min(if limit < 0 then -limit else limit, size)
  {
    if limit == 0 then size
    else if limit < 0 then Min(-limit, size)
    else Min(limit, size)
  }

  /** Each key of `cursor` once, ordered by `field`, descending. */
  ghost predicate SortedDistinct(records: map<string, Record>, field: Field, cursor: seq<string>) {
    && (forall i :: 0 <= i < |cursor| ==> cursor[i] in records)
    && (forall i, j :: 0 <= i < j < |cursor| ==> cursor[i] != cursor[j])
    && (forall i, j :: 0 <= i < j < |cursor| ==>
          FieldOf(records[cursor[i]], field) >= FieldOf(records[cursor[j]], field))
  }

  /** Some key of a non-empty set has the largest `field` value. */
  lemma LargestExists(records: map<string, Record>, field: Field, keys: set<string>) returns (top: string)
    requires keys != {} && keys <= records.Keys
    ensures top in keys && forall k :: k in keys ==> FieldOf(records[k], field) <= FieldOf(records[top], field)
    decreases keys
  {
    var x :| x in keys;
    if keys == {x} {
      top := x;
    } else {
      var rest := LargestExists(records, field, keys - {x});
      top := if FieldOf(records[x], field) >= FieldOf(records[rest], field) then x else rest;
    }
  }

  /**
   * The collection of search records. `clock` stands in for
   * `datetime.now()`: every successful save stamps its record with the
   * current value and advances it.
   */
  class QueryLog {
    var records: map<string, Record>
    var clock: nat

    /**
     * Every key is a non-empty normal form, every count is at least 1,
     * every stamp lies in the past, and no two records share a stamp.
     */
    ghost predicate Valid()
      reads this
    {
      WellFormed(records, clock)
    }

    /** An empty collection. */
    constructor ()
      ensures records == map[] && clock == 0
      ensures Valid()
    {
      records := map[];
      clock := 0;
    }

    /**
     * `save_search_query`: nothing for a `None`, empty or blank query, or
     * when the store raises (`stored` is false); otherwise the record of
     * the normalised query gets its count raised by one (from 0 when it is
     * new) and the current time, and no other record changes.
     */
    method SaveSearchQuery(query: Option<string>, stored: bool)
      requires Valid()
      modifies this
      ensures Valid()
      ensures Blank(query) || !stored ==> records == old(records) && clock == old(clock)
      ensures !Blank(query) && stored ==>
        var key := NormalizeQuery(query.value);
        && records == Upserted(old(records), key, old(clock))
        && clock == old(clock) + 1
    {
      if query.None? || query.value == [] || Strip(query.value) == [] {
        return;
      }
      var key := NormalizeQuery(query.value);
      if !stored {
        return;
      }
      NormalizedIsKey(query.value);
      Upsert(key);
    }

    /**
     * `update_one({"query": key}, {"$set": {"last_searched": now}, "$inc":
     * {"count": 1}}, upsert=True)`: the record of `key` is created with
     * count 1 or has its count raised by one, and is stamped with the
     * current time; the clock moves on.
     */
    method Upsert(key: string)
      requires Valid() && IsKey(key)
      modifies this
      ensures Valid()
      ensures records == Upserted(old(records), key, old(clock))
      ensures clock == old(clock) + 1
    {
      UpsertKeepsWellFormed(records, clock, key);
      records, clock := Upserted(records, key, clock), clock + 1;
    }

    /**
     * `sort(field, -1)` on the server: every key once, ordered by the
     * field, descending; the order among equal values is the store's choice.
     */
    method SortedCursor(field: Field) returns (cursor: seq<string>)
      ensures SortedDistinct(records, field, cursor)
      ensures |cursor| == |records|
      ensures forall k :: k in records ==> k in cursor
    {
      cursor := [];
      var rest := records.Keys;
      while rest != {}
        invariant rest <= records.Keys
        invariant |cursor| + |rest| == |records.Keys|
        invariant SortedDistinct(records, field, cursor)
        invariant forall k :: k in records ==> (k in cursor <==> k !in rest)
        invariant forall i, k :: 0 <= i < |cursor| && k in rest ==>
          FieldOf(records[k], field) <= FieldOf(records[cursor[i]], field)
        decreases |rest|
      {
        ghost var largest := LargestExists(records, field, rest);
        var top :| top in rest && forall k :: k in rest ==> FieldOf(records[k], field) <= FieldOf(records[top], field);
        CursorStep(records, field, cursor, rest, top);
        cursor := cursor + [top];
        rest := rest - {top};
      }
    }

    /**
     * `get_popular_queries`: the `limit` (pymongo's reading of it) records
     * with the highest counts, highest first, each with its query and
     * count; no other record counts more than any returned one. [] when the
     * store raises (`reachable` is false).
     */
    method GetPopularQueries(limit: int, reachable: bool) returns (results: seq<Popular>)
      ensures !reachable ==> results == []
      ensures reachable ==> |results| == MongoLimit(limit, |records|)
      ensures forall i :: 0 <= i < |results| ==>
        results[i].query in records && results[i].count == records[results[i].query].count
      ensures forall i, j :: 0 <= i < j < |results| ==>
        results[i].query != results[j].query && results[i].count >= results[j].count
      ensures forall k :: k in records && (forall i :: 0 <= i < |results| ==> results[i].query != k) ==>
        forall i :: 0 <= i < |results| ==> records[k].count <= results[i].count
    {
      results := [];
      if !reachable {
        return;
      }
      var sorted := SortedCursor(Count);
      var m := MongoLimit(limit, |sorted|);
      results := PopularEntries(sorted[..m]);
      PopularRanking(records, sorted, m, results);
    }

    /** The answer entries for the documents of a cursor, in cursor order. */
    method PopularEntries(cursor: seq<string>) returns (entries: seq<Popular>)
      requires forall i :: 0 <= i < |cursor| ==> cursor[i] in records
      ensures |entries| == |cursor|
      ensures forall j :: 0 <= j < |cursor| ==> entries[j] == Popular(cursor[j], records[cursor[j]].count)
    {
      entries := [];
      var i := 0;
      while i < |cursor|
        invariant 0 <= i <= |cursor|
        invariant |entries| == i
        invariant forall j :: 0 <= j < i ==> entries[j] == Popular(cursor[j], records[cursor[j]].count)
      {
        entries := entries + [Popular(cursor[i], records[cursor[i]].count)];
        i := i + 1;
      }
    }

    /**
     * `get_recent_queries`: the queries of the `limit` (pymongo's reading
     * of it) most recently searched records, most recent first, each once;
     * no other record was searched later than any returned one. [] when
     * the store raises (`reachable` is false).
     */
    method GetRecentQueries(limit: int, reachable: bool) returns (results: seq<string>)
      ensures !reachable ==> results == []
      ensures reachable ==> |results| == MongoLimit(limit, |records|)
      ensures forall i :: 0 <= i < |results| ==> results[i] in records
      ensures forall i, j :: 0 <= i < j < |results| ==>
        results[i] != results[j] && records[results[i]].lastSearched >= records[results[j]].lastSearched
      ensures forall k :: k in records && k !in results ==>
        forall i :: 0 <= i < |results| ==> records[k].lastSearched <= records[results[i]].lastSearched
    {
      results := [];
      if !reachable {
        return;
      }
      var sorted := SortedCursor(LastSearched);
      var m := MongoLimit(limit, |sorted|);
      var cursor := sorted[..m];
      var i := 0;
      while i < |cursor|
        invariant 0 <= i <= |cursor|
        invariant results == cursor[..i]
      {
        results := results + [cursor[i]];
        i := i + 1;
      }
      assert results == cursor;
      RecentRanking(records, sorted, m);
    }
  }

  /**
   * The first `m` keys of a cursor sorted by last search time and holding
   * every key are distinct, most recent first, and no other record was
   * searched later than any of them.
   */
  lemma RecentRanking(records: map<string, Record>, sorted: seq<string>, m: nat)
    requires SortedDistinct(records, LastSearched, sorted)
    requires forall k :: k in records ==> k in sorted
    requires m <= |sorted|
    ensures var results := sorted[..m];
      && (forall i :: 0 <= i < |results| ==> results[i] in records)
      && (forall i, j :: 0 <= i < j < |results| ==>
            results[i] != results[j] && records[results[i]].lastSearched >= records[results[j]].lastSearched)
      && (forall k :: k in records && k !in results ==>
            forall i :: 0 <= i < |results| ==> records[k].lastSearched <= records[results[i]].lastSearched)
  {
    PrefixDominates(records, LastSearched, sorted, m);
  }

  /**
   * The entries made from the first `m` keys of a count-sorted cursor
   * holding every key are distinct, ordered by count, and no other record
   * counts more than any of them.
   */
  lemma PopularRanking(records: map<string, Record>, sorted: seq<string>, m: nat, results: seq<Popular>)
    requires SortedDistinct(records, Count, sorted)
    requires forall k :: k in records ==> k in sorted
    requires m <= |sorted| && |results| == m
    requires forall j :: 0 <= j < m ==> results[j] == Popular(sorted[..m][j], records[sorted[..m][j]].count)
    ensures forall i :: 0 <= i < |results| ==>
      results[i].query in records && results[i].count == records[results[i].query].count
    ensures forall i, j :: 0 <= i < j < |results| ==>
      results[i].query != results[j].query && results[i].count >= results[j].count
    ensures forall k :: k in records && (forall i :: 0 <= i < |results| ==> results[i].query != k) ==>
      forall i :: 0 <= i < |results| ==> records[k].count <= results[i].count
  {
    PrefixDominates(records, Count, sorted, m);
  }

  /**
   * Appending the largest of the keys not yet listed keeps the cursor
   * sorted and distinct, and keeps the unlisted keys below every listed one.
   */
  lemma CursorStep(records: map<string, Record>, field: Field, cursor: seq<string>, rest: set<string>, top: string)
    requires rest <= records.Keys && top in rest
    requires SortedDistinct(records, field, cursor)
    requires forall k :: k in records ==> (k in cursor <==> k !in rest)
    requires forall i, k :: 0 <= i < |cursor| && k in rest ==>
      FieldOf(records[k], field) <= FieldOf(records[cursor[i]], field)
    requires forall k :: k in rest ==> FieldOf(records[k], field) <= FieldOf(records[top], field)
    ensures SortedDistinct(records, field, cursor + [top])
    ensures forall k :: k in records ==> (k in cursor + [top] <==> k !in rest - {top})
    ensures forall i, k :: 0 <= i < |cursor + [top]| && k in rest - {top} ==>
      FieldOf(records[k], field) <= FieldOf(records[(cursor + [top])[i]], field)
  {
    var next := cursor + [top];
    assert forall i :: 0 <= i < |cursor| ==> next[i] == cursor[i];
    assert next[|cursor|] == top;
    assert top !in cursor;
  }

  /**
   * In a cursor holding every key in descending `field` order, a key left
   * out of the first `m` entries ranks below each of them.
   */
  lemma PrefixDominates(records: map<string, Record>, field: Field, cursor: seq<string>, m: nat)
    requires SortedDistinct(records, field, cursor)
    requires forall k :: k in records ==> k in cursor
    requires m <= |cursor|
    ensures forall i :: 0 <= i < m ==> cursor[..m][i] == cursor[i]
    ensures forall k, i :: k in records && k !in cursor[..m] && 0 <= i < m ==>
      FieldOf(records[k], field) <= FieldOf(records[cursor[i]], field)
  {
    forall k, i | k in records && k !in cursor[..m] && 0 <= i < m
      ensures FieldOf(records[k], field) <= FieldOf(records[cursor[i]], field)
    {
      var at :| 0 <= at < |cursor| && cursor[at] == k;
      assert at >= m;
    }
  }

  /**
   * The store invariant: every key is a non-empty normal form, every count
   * is at least 1, every stamp lies before `clock`, and no two records
   * share a stamp.
   */
  ghost predicate WellFormed(records: map<string, Record>, clock: nat) {
    && (forall k :: k in records ==> IsKey(k))
    && (forall k :: k in records ==> records[k].count >= 1 && records[k].lastSearched < clock)
    && (forall k1, k2 :: k1 in records && k2 in records && k1 != k2 ==>
          records[k1].lastSearched != records[k2].lastSearched)
  }

  /** A record key: non-empty, with no whitespace at either end and no upper-case letter. */
  predicate IsKey(k: string) {
    k != [] && Trimmed(k) && forall i :: 0 <= i < |k| ==> LowerChar(k[i]) == k[i]
  }

  /** Record keys are exactly the non-empty normal forms. */
  lemma KeyIsNormalForm(k: string)
    ensures IsKey(k) <==> k != [] && NormalizeQuery(k) == k
  {
    if IsKey(k) {
      StripTrimmed(k);
      assert Lower(k) == k;
    }
    if k != [] && NormalizeQuery(k) == k {
      NormalizedIsKey(k);
    }
  }

  /** The key of a search that is not blank is a record key. */
  lemma NormalizedIsKey(q: string)
    requires q != [] && Strip(q) != []
    ensures IsKey(NormalizeQuery(q))
  {
    var t := Strip(q);
    LowerSliceSpace(t, 0, |t|);
    assert t[0..|t|] == t && Lower(t)[0..|t|] == Lower(t);
    forall i | 0 <= i < |t| ensures LowerChar(Lower(t)[i]) == Lower(t)[i] {
      LowerCharFacts(t[i]);
    }
  }

  /** An upsert of a normalised key stamped with the current time keeps the invariant. */
  lemma UpsertKeepsWellFormed(records: map<string, Record>, clock: nat, key: string)
    requires WellFormed(records, clock)
    requires IsKey(key)
    ensures WellFormed(Upserted(records, key, clock), clock + 1)
  {
    var after := Upserted(records, key, clock);
    forall k | k in after ensures IsKey(k) && after[k].count >= 1 && after[k].lastSearched < clock + 1 {
      if k != key { assert after[k] == records[k]; }
    }
    forall k1, k2 | k1 in after && k2 in after && k1 != k2
      ensures after[k1].lastSearched != after[k2].lastSearched
    {
      if k1 != key && k2 != key { assert after[k1] == records[k1] && after[k2] == records[k2]; }
      else if k1 == key { assert after[k2] == records[k2]; }
      else { assert after[k1] == records[k1]; }
    }
  }

  /** The records after a save of `key` stamped `stamp`. */
  function Upserted(records: map<string, Record>, key: string, stamp: nat): (r: map<string, Record>)
    ensures r.Keys == records.Keys + {key}
    ensures key in records ==> r[key].count == records[key].count + 1
    ensures key !in records ==> r[key].count == 1
    ensures r[key].lastSearched == stamp
    ensures forall k :: k in records && k != key ==> r[k] == records[k]
  {
    records[key := Record(Previous(records, key) + 1, stamp)]
  }

  /** The count a record had before a save: 0 when the key is new (`$inc` on an absent field). */
  function Previous(records: map<string, Record>, key: string): (n: int)
    ensures key !in records ==> n == 0
    ensures key in records ==> n == records[key].count
  {
    if key in records then records[key].count else 0
  }

  /**
   * Searching `q` and then the same text lower-cased with a trailing blank
   * leaves one record for both, counted twice.
   */
  method SameQueryTwice(log: QueryLog, q: string)
    requires log.Valid() && q != [] && Strip(q) != []
    modifies log
    ensures log.Valid()
    ensures NormalizeQuery(q) in log.records
    ensures NormalizeQuery(q) in old(log.records) ==>
      log.records[NormalizeQuery(q)].count == old(log.records)[NormalizeQuery(q)].count + 2
    ensures NormalizeQuery(q) !in old(log.records) ==> log.records[NormalizeQuery(q)].count == 2
    ensures log.records.Keys == old(log.records).Keys + {NormalizeQuery(q)}
  {
    var key := NormalizeQuery(q);
    var again := Lower(q) + " ";
    SameKeyAgain(q);
    ghost var before, stamp := log.records, log.clock;
    UpsertedTwice(before, key, stamp);
    log.SaveSearchQuery(Some(q), true);
    log.SaveSearchQuery(Some(again), true);
  }

  /** The lower-cased, blank-padded query is a non-blank search with the same key. */
  lemma SameKeyAgain(q: string)
    requires q != [] && Strip(q) != []
    ensures !Blank(Some(q)) && !Blank(Some(Lower(q) + " "))
    ensures NormalizeQuery(Lower(q) + " ") == NormalizeQuery(q)
  {
    NormalizeIgnoresCaseAndPadding(q, [], " ");
    assert [] + Lower(q) + " " == Lower(q) + " ";
    NormalizeNonBlank(q);
  }

  /** Two saves of one key: the key is counted twice more, and the key set gains at most that key. */
  lemma UpsertedTwice(records: map<string, Record>, key: string, stamp: nat)
    ensures var r := Upserted(Upserted(records, key, stamp), key, stamp + 1);
      && r.Keys == records.Keys + {key}
      && (key in records ==> r[key].count == records[key].count + 2)
      && (key !in records ==> r[key].count == 2)
  {
  }

  /**
   * On a fresh collection, searching `a` twice and `b` once (with
   * different keys) makes `a` the single most popular query, counted twice.
   */
  method TopQueryScenario(a: string, b: string) returns (top: seq<Popular>)
    requires a != [] && Strip(a) != [] && b != [] && Strip(b) != []
    requires NormalizeQuery(a) != NormalizeQuery(b)
    ensures top == [Popular(NormalizeQuery(a), 2)]
  {
    ghost var ka, kb := NormalizeQuery(a), NormalizeQuery(b);
    var log := SearchAThenB(a, b);
    top := log.GetPopularQueries(1, true);
    TopOfTwo(log.records, ka, kb, top);
  }

  /**
   * With `ka` counted twice and `kb` once, a one-entry answer that obeys
   * the popular-queries contract can only be `ka`.
   */
  lemma TopOfTwo(records: map<string, Record>, ka: string, kb: string, top: seq<Popular>)
    requires ka != kb && records == map[ka := Record(2, 1), kb := Record(1, 2)]
    requires |top| == MongoLimit(1, |records|)
    requires forall i :: 0 <= i < |top| ==> top[i].query in records && top[i].count == records[top[i].query].count
    requires forall k :: k in records && (forall i :: 0 <= i < |top| ==> top[i].query != k) ==>
      forall i :: 0 <= i < |top| ==> records[k].count <= top[i].count
    ensures top == [Popular(ka, 2)]
  {
    assert records.Keys == {ka, kb};
    assert |records| == 2;
    assert ka in records && |top| == 1;
    assert (forall i :: 0 <= i < |top| ==> top[i].query != ka) ==> records[ka].count <= top[0].count;
  }

  /** A fresh collection after searches for `a`, `a` and `b`. */
  method SearchAThenB(a: string, b: string) returns (log: QueryLog)
    requires a != [] && Strip(a) != [] && b != [] && Strip(b) != []
    requires NormalizeQuery(a) != NormalizeQuery(b)
    ensures log.records == map[NormalizeQuery(a) := Record(2, 1), NormalizeQuery(b) := Record(1, 2)]
  {
    ghost var ka, kb := NormalizeQuery(a), NormalizeQuery(b);
    log := new QueryLog();
    log.SaveSearchQuery(Some(a), true);
    log.SaveSearchQuery(Some(a), true);
    log.SaveSearchQuery(Some(b), true);
    assert log.records == Upserted(Upserted(Upserted(map[], ka, 0), ka, 1), kb, 2);
    ThreeUpserts(ka, kb);
  }

  /** Saving `ka`, `ka` and `kb` into an empty collection at times 0, 1 and 2. */
  lemma ThreeUpserts(ka: string, kb: string)
    requires ka != kb
    ensures Upserted(Upserted(Upserted(map[], ka, 0), ka, 1), kb, 2) == map[ka := Record(2, 1), kb := Record(1, 2)]
  {
    var one := Upserted(map[], ka, 0);
    assert one == map[ka := Record(1, 0)];
    var two := Upserted(one, ka, 1);
    assert two == map[ka := Record(2, 1)];
  }
}
