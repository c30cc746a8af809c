/**
 * The SQL the film repository sends, as structured values rather than text,
 * and an evaluator for it over an in-memory catalog. The catalog stands for
 * the joined `film`/`film_category`/`category` rows (one row per film and
 * category) plus the `release_year` column of `film`.
 */
module Sql {
  import opened Prelude
  import opened Py

  /** One joined row, projected as the listing queries project it. */
  datatype Film = Film(title: string, releaseYear: int, rating: string, length: int, description: string, category: string)

  /** One conjunct of a WHERE clause, its `%s` placeholders not yet bound. */
  datatype Pred =
    | CategoryIs     // c.name = %s
    | YearBetween    // f.release_year BETWEEN %s AND %s
    | YearFrom       // f.release_year >= %s
    | YearUpTo       // f.release_year <= %s
    | TitleLike      // LOWER(f.title) LIKE LOWER(%s)
    | Tautology      // 1=1

  /** A value passed to the driver for one `%s`. */
  datatype Param = Str(s: string) | Int(i: int)

  /** Number of `%s` placeholders in a predicate's text. */
  function Arity(p: Pred): nat {
    match p
    case YearBetween => 2
    case Tautology => 0
    case _ => 1
  }

  /** Number of `%s` placeholders in a conjunction of predicates. */
  function Placeholders(ps: seq<Pred>): nat {
    if ps == [] then 0 else Arity(ps[0]) + Placeholders(ps[1..])
  }

  lemma {:induction false} PlaceholdersAppend(a: seq<Pred>, b: seq<Pred>)
    ensures Placeholders(a + b) == Placeholders(a) + Placeholders(b)
  {
    if a == [] {
      assert a + b == b;
    } else {
      assert (a + b)[0] == a[0] && (a + b)[1..] == a[1..] + b;
      PlaceholdersAppend(a[1..], b);
    }
  }

  /** A predicate with its placeholders replaced by the parameter values. */
  datatype Cond =
    | CategoryEq(name: string)
    | YearIn(lo: int, hi: int)
    | YearAtLeast(from: int)
    | YearAtMost(to: int)
    | TitleMatches(pattern: string)
    | Always

  /** Substitutes one predicate's parameters; `None` when a value has the wrong kind. */
  function BindOne(p: Pred, args: seq<Param>): Option<Cond>
    requires |args| == Arity(p)
  {
    match p
    case CategoryIs => if args[0].Str? then Some(CategoryEq(args[0].s)) else None
    case YearBetween => if args[0].Int? && args[1].Int? then Some(YearIn(args[0].i, args[1].i)) else None
    case YearFrom => if args[0].Int? then Some(YearAtLeast(args[0].i)) else None
    case YearUpTo => if args[0].Int? then Some(YearAtMost(args[0].i)) else None
    case TitleLike => if args[0].Str? then Some(TitleMatches(args[0].s)) else None
    case Tautology => Some(Always)
  }

  /** Both halves bound: their conditions side by side; otherwise failure. */
  function Joined(l: Result<seq<Cond>>, r: Result<seq<Cond>>): Result<seq<Cond>>
  {
    if l.Ok? && r.Ok? then Ok(l.value + r.value) else Failure
  }

  /** A bound head condition in front of the bound rest; otherwise failure. */
  function Prepend(head: Option<Cond>, rest: Result<seq<Cond>>): Result<seq<Cond>>
  {
    if head.Some? && rest.Ok? then Ok([head.value] + rest.value) else Failure
  }

  /**
   * The driver's substitution of `params` into the placeholders, left to
   * right. It fails unless there is exactly one value per placeholder.
   */
  function Bind(ps: seq<Pred>, args: seq<Param>): (r: Result<seq<Cond>>)
    ensures r.Ok? ==> |args| == Placeholders(ps) && |r.value| == |ps|
  {
    if ps == [] then
      if args == [] then Ok([]) else Failure
    else if |args| < Arity(ps[0]) then Failure
    else
      Prepend(BindOne(ps[0], args[..Arity(ps[0])]), Bind(ps[1..], args[Arity(ps[0])..]))
  }

  /**
   * Binding a conjunction split in two is binding each half against its own
   * share of the parameters: parameters follow predicate order.
   */
  lemma {:induction false} BindAppend(a: seq<Pred>, b: seq<Pred>, x: seq<Param>, y: seq<Param>)
    requires Placeholders(a) == |x|
    ensures Bind(a + b, x + y) == Joined(Bind(a, x), Bind(b, y))
  {
    if a == [] {
      assert a + b == b && x == [] && x + y == y;
      match Bind(b, y)
      case Ok(cb) => assert [] + cb == cb;
      case Failure =>
    } else {
      var n := Arity(a[0]);
      AppendSplit(a, b, x, y);
      BindAppend(a[1..], b, x[n..], y);
      BindAppendHead(a, b, x, y);
    }
  }

  /** The head and tail of the joined predicate and parameter lists. */
  lemma AppendSplit(a: seq<Pred>, b: seq<Pred>, x: seq<Param>, y: seq<Param>)
    requires a != [] && Placeholders(a) == |x|
    ensures Arity(a[0]) <= |x| && Placeholders(a[1..]) == |x| - Arity(a[0])
    ensures (a + b)[0] == a[0] && (a + b)[1..] == a[1..] + b
    ensures (x + y)[..Arity(a[0])] == x[..Arity(a[0])]
    ensures (x + y)[Arity(a[0])..] == x[Arity(a[0])..] + y
  {
  }

  /** One step of `BindAppend`: the head predicate binds the same on both sides. */
  lemma BindAppendHead(a: seq<Pred>, b: seq<Pred>, x: seq<Param>, y: seq<Param>)
    requires a != [] && Arity(a[0]) <= |x|
    requires (a + b)[0] == a[0] && (a + b)[1..] == a[1..] + b
    requires (x + y)[..Arity(a[0])] == x[..Arity(a[0])]
    requires (x + y)[Arity(a[0])..] == x[Arity(a[0])..] + y
    requires Bind(a[1..] + b, x[Arity(a[0])..] + y) == Joined(Bind(a[1..], x[Arity(a[0])..]), Bind(b, y))
    ensures Bind(a + b, x + y) == Joined(Bind(a, x), Bind(b, y))
  {
    var n := Arity(a[0]);
    var head := BindOne(a[0], x[..n]);
    assert Bind(a + b, x + y) == Prepend(head, Bind(a[1..] + b, x[n..] + y));
    assert Bind(a, x) == Prepend(head, Bind(a[1..], x[n..]));
    PrependJoined(head, Bind(a[1..], x[n..]), Bind(b, y));
  }

  /** Putting a head in front and joining on a tail commute. */
  lemma PrependJoined(head: Option<Cond>, l: Result<seq<Cond>>, r: Result<seq<Cond>>)
    ensures Prepend(head, Joined(l, r)) == Joined(Prepend(head, l), r)
  {
    if head.Some? && l.Ok? && r.Ok? {
      assert [head.value] + (l.value + r.value) == ([head.value] + l.value) + r.value;
    }
  }

  /** Binding one more predicate with its own parameters at the end. */
  lemma BindSnoc(ps: seq<Pred>, p: Pred, args: seq<Param>, xs: seq<Param>, cs: seq<Cond>, c: Cond)
    requires Bind(ps, args) == Ok(cs)
    requires |xs| == Arity(p) && BindOne(p, xs) == Some(c)
    ensures Bind(ps + [p], args + xs) == Ok(cs + [c])
  {
    BindAppend(ps, [p], args, xs);
    assert [p][0] == p && [p][1..] == [];
    assert xs[..Arity(p)] == xs && xs[Arity(p)..] == [];
    assert Bind([p][1..], xs[Arity(p)..]) == Ok([]);
    assert BindOne([p][0], xs[..Arity([p][0])]) == Some(c);
    assert [c] + [] == [c];
    assert Bind([p], xs) == Ok([c]);
  }

  // ---------------------------------------------------------------- LIKE

  /**
   * `s LIKE p` with MySQL's default escape character: `%` matches any run
   * of characters, `_` any single character, a backslash followed by a
   * character matches that character alone (a backslash at the very end
   * matches itself), and everything else matches itself.
   */
  predicate Like(s: string, p: string)
    decreases |s| + |p|
  {
    if p == [] then s == []
    else if p[0] == '%' then Like(s, p[1..]) || (s != [] && Like(s[1..], p))
    else if p[0] == '\\' && |p| >= 2 then s != [] && s[0] == p[1] && Like(s[1..], p[2..])
    else s != [] && (p[0] == '_' || s[0] == p[0]) && Like(s[1..], p[1..])
  }

  /** `t` holds none of the characters LIKE treats specially: `%`, `_` and the escape `\`. */
  predicate NoWildcards(t: string) {
    forall i :: 0 <= i < |t| ==> t[i] != '%' && t[i] != '_' && t[i] != '\\'
  }

  /**
   * The escape at work: the pattern `a\b` matches `ab` and not the text
   * `a\b` it was typed as; `a\\b` is the pattern that matches `a\b`.
   */
  lemma LikeEscapes()
    ensures Like("ab", "a\\b")
    ensures !Like("a\\b", "a\\b")
    ensures Like("a\\b", "a\\\\b")
  {
    var p := "a\\b";
    assert p[1..] == "\\b" && p[1..][2..] == [];
    var q := "a\\\\b";
    assert q[1..] == "\\\\b" && q[1..][2..] == "b" && "b"[1..] == [];
    var t := "a\\b";
    assert t[1..] == "\\b" && t[1..][1..] == "b";
  }

  predicate IsPrefix(t: string, u: string) {
    |t| <= |u| && u[..|t|] == t
  }

  /** `t` occurs in `s` as a substring. */
  predicate Contains(s: string, t: string) {
    exists i :: 0 <= i <= |s| && IsPrefix(t, s[i..])
  }

  lemma {:induction false} LikeAnything(s: string)
    ensures Like(s, "%")
    decreases |s|
  {
    assert "%"[1..] == [];
    if s != [] {
      LikeAnything(s[1..]);
    }
  }

  /** `s LIKE t%` for a literal `t` holds exactly when `t` is a prefix of `s`. */
  lemma {:induction false} LikeLiteralPrefix(s: string, t: string)
    requires NoWildcards(t)
    ensures Like(s, t + "%") <==> IsPrefix(t, s)
    decreases |t|
  {
    if t == [] {
      assert t + "%" == "%";
      LikeAnything(s);
    } else {
      assert (t + "%")[0] == t[0] && (t + "%")[1..] == t[1..] + "%";
      if s != [] {
        LikeLiteralPrefix(s[1..], t[1..]);
        if IsPrefix(t, s) {
          assert s[1..][..|t| - 1] == s[..|t|][1..];
        }
        if s[0] == t[0] && IsPrefix(t[1..], s[1..]) {
          assert s[..|t|] == [s[0]] + s[1..][..|t| - 1];
        }
      }
    }
  }

  /** `s LIKE %q` holds exactly when some suffix of `s` matches `q`. */
  lemma {:induction false} LikeLeadingPercent(s: string, q: string)
    ensures Like(s, "%" + q) <==> exists i :: 0 <= i <= |s| && Like(s[i..], q)
    decreases |s|
  {
    var p := "%" + q;
    assert p[0] == '%' && p[1..] == q;
    assert s[0..] == s;
    if s != [] {
      LikeLeadingPercent(s[1..], q);
      if exists i :: 0 <= i <= |s| && Like(s[i..], q) {
        var i :| 0 <= i <= |s| && Like(s[i..], q);
        if i > 0 {
          assert s[1..][i - 1..] == s[i..];
        }
      }
      if exists i :: 0 <= i <= |s[1..]| && Like(s[1..][i..], q) {
        var i :| 0 <= i <= |s[1..]| && Like(s[1..][i..], q);
        assert s[1..][i..] == s[i + 1..];
      }
    }
  }

  /**
   * The pattern `%t%` built around a wildcard-free `t` matches exactly the
   * strings that contain `t`.
   */
  lemma LikeContains(s: string, t: string)
    requires NoWildcards(t)
    ensures Like(s, "%" + t + "%") <==> Contains(s, t)
  {
    assert "%" + t + "%" == "%" + (t + "%");
    LikeLeadingPercent(s, t + "%");
    forall i | 0 <= i <= |s| ensures Like(s[i..], t + "%") <==> IsPrefix(t, s[i..]) {
      LikeLiteralPrefix(s[i..], t);
    }
  }

  // ---------------------------------------------------------------- ordering

  /** Lexicographic order on character codes (the collation is not modelled). */
  predicate TextLe(a: string, b: string) {
    a == [] || (b != [] && (a[0] < b[0] || (a[0] == b[0] && TextLe(a[1..], b[1..]))))
  }

  lemma {:induction false} TextLeTotal(a: string, b: string)
    ensures TextLe(a, b) || TextLe(b, a)
  {
    if a != [] && b != [] && a[0] == b[0] {
      TextLeTotal(a[1..], b[1..]);
    }
  }

  lemma {:induction false} TextLeTransitive(a: string, b: string, c: string)
    requires TextLe(a, b) && TextLe(b, c)
    ensures TextLe(a, c)
  {
    if a != [] && b != [] && c != [] && a[0] == b[0] == c[0] {
      TextLeTransitive(a[1..], b[1..], c[1..]);
    }
  }

  /** `ORDER BY f.release_year DESC` or `ORDER BY f.title`. */
  datatype Order = ReleaseYearDesc | TitleAsc

  /** `a` may come before `b` in the order. */
  predicate Before(o: Order, a: Film, b: Film) {
    match o
    case ReleaseYearDesc => a.releaseYear >= b.releaseYear
    case TitleAsc => TextLe(a.title, b.title)
  }

  lemma BeforeTotal(o: Order, a: Film, b: Film)
    ensures Before(o, a, b) || Before(o, b, a)
  {
    if o == TitleAsc {
      TextLeTotal(a.title, b.title);
    }
  }

  lemma BeforeTransitive(o: Order, a: Film, b: Film, c: Film)
    requires Before(o, a, b) && Before(o, b, c)
    ensures Before(o, a, c)
  {
    if o == TitleAsc {
      TextLeTransitive(a.title, b.title, c.title);
    }
  }

  predicate SortedBy(o: Order, s: seq<Film>) {
    forall i, j :: 0 <= i < j < |s| ==> Before(o, s[i], s[j])
  }

  /** A sorted sequence stays sorted under a new head that may precede every element. */
  lemma SortedCons(o: Order, x: Film, s: seq<Film>)
    requires SortedBy(o, s)
    requires forall k :: 0 <= k < |s| ==> Before(o, x, s[k])
    ensures SortedBy(o, [x] + s)
  {
    var r := [x] + s;
    forall i, j | 0 <= i < j < |r| ensures Before(o, r[i], r[j]) {
      if i > 0 {
        assert r[i] == s[i - 1] && r[j] == s[j - 1];
      }
    }
  }

  /** Inserts `x` before the first element it may precede. */
  function Insert(o: Order, x: Film, s: seq<Film>): (r: seq<Film>)
    requires SortedBy(o, s)
    ensures multiset(r) == multiset(s) + multiset{x}
    ensures SortedBy(o, r)
  {
    if s == [] || Before(o, x, s[0]) then
      HeadPrecedesSorted(o, x, s);
      SortedCons(o, x, s);
      [x] + s
    else
      var rest := Insert(o, x, s[1..]);
      assert s == [s[0]] + s[1..];
      InsertHead(o, x, s, rest);
      [s[0]] + rest
  }

  lemma HeadPrecedesSorted(o: Order, x: Film, s: seq<Film>)
    requires SortedBy(o, s)
    requires s == [] || Before(o, x, s[0])
    ensures forall k :: 0 <= k < |s| ==> Before(o, x, s[k])
  {
    forall k | 0 <= k < |s| ensures Before(o, x, s[k]) {
      if k > 0 {
        BeforeTransitive(o, x, s[0], s[k]);
      }
    }
  }

  lemma InsertHead(o: Order, x: Film, s: seq<Film>, rest: seq<Film>)
    requires SortedBy(o, s) && s != [] && !Before(o, x, s[0])
    requires SortedBy(o, rest) && multiset(rest) == multiset(s[1..]) + multiset{x}
    ensures SortedBy(o, [s[0]] + rest)
  {
    BeforeTotal(o, x, s[0]);
    forall k | 0 <= k < |rest| ensures Before(o, s[0], rest[k]) {
      assert rest[k] in multiset(rest);
      if rest[k] != x {
        assert rest[k] in multiset(s[1..]);
        var m :| 0 <= m < |s[1..]| && s[1..][m] == rest[k];
        assert s[m + 1] == rest[k];
      }
    }
    SortedCons(o, s[0], rest);
  }

  /** Insertion sort: a sorted permutation. */
  function Sort(o: Order, s: seq<Film>): (r: seq<Film>)
    ensures multiset(r) == multiset(s)
    ensures SortedBy(o, r)
  {
    if s == [] then []
    else
      assert s == [s[0]] + s[1..];
      Insert(o, s[0], Sort(o, s[1..]))
  }

  // ---------------------------------------------------------------- rows

  /** The rows of `rows` that `keep` accepts, in their order. */
  function Filter(rows: seq<Film>, keep: Film -> bool): (r: seq<Film>)
    ensures |r| <= |rows|
  {
    if rows == [] then []
    else (if keep(rows[0]) then [rows[0]] else []) + Filter(rows[1..], keep)
  }

  /**
   * Filtering keeps every copy of an accepted row and no copy of a
   * rejected one.
   */
  lemma {:induction false} FilterCount(rows: seq<Film>, keep: Film -> bool, f: Film)
    ensures multiset(Filter(rows, keep))[f] == if keep(f) then multiset(rows)[f] else 0
  {
    if rows != [] {
      FilterCount(rows[1..], keep, f);
      assert rows == [rows[0]] + rows[1..];
    }
  }

  lemma {:induction false} FilterCongruent(rows: seq<Film>, p: Film -> bool, q: Film -> bool)
    requires forall f :: p(f) == q(f)
    ensures Filter(rows, p) == Filter(rows, q)
  {
    if rows != [] {
      FilterCongruent(rows[1..], p, q);
    }
  }

  /** A film satisfies a bound predicate. */
  predicate Holds(c: Cond, f: Film) {
    match c
    case CategoryEq(name) => f.category == name
    case YearIn(lo, hi) => lo <= f.releaseYear <= hi
    case YearAtLeast(from) => f.releaseYear >= from
    case YearAtMost(to) => f.releaseYear <= to
    case TitleMatches(pattern) => Like(Lower(f.title), Lower(pattern))
    case Always => true
  }

  /** A film satisfies every conjunct of a WHERE clause. */
  predicate HoldsAll(cs: seq<Cond>, f: Film) {
    forall i :: 0 <= i < |cs| ==> Holds(cs[i], f)
  }

  /** The rows a WHERE clause lets through. */
  function Select(rows: seq<Film>, cs: seq<Cond>): seq<Film> {
    Filter(rows, f => HoldsAll(cs, f))
  }

  /** `LIMIT limit OFFSET offset` on an ordered result. */
  function Window(s: seq<Film>, offset: nat, limit: nat): (r: seq<Film>)
    ensures |r| <= limit
    ensures |r| == Min(limit, |s| - Min(offset, |s|))
    ensures forall k :: 0 <= k < |r| ==> r[k] == s[offset + k]
  {
    s[Min(offset, |s|)..Min(offset + limit, |s|)]
  }

  /** Two consecutive windows make up the window that spans both. */
  lemma WindowsAdjacent(s: seq<Film>, offset: nat, a: nat, b: nat)
    ensures Window(s, offset, a) + Window(s, offset + a, b) == Window(s, offset, a + b)
  {
    var lo, mid, hi := Min(offset, |s|), Min(offset + a, |s|), Min(offset + a + b, |s|);
    assert s[lo..mid] + s[mid..hi] == s[lo..hi];
  }

  /** A film satisfies a conjunction extended by one conjunct exactly when it satisfies both parts. */
  lemma HoldsAllSnoc(cs: seq<Cond>, c: Cond, f: Film)
    ensures HoldsAll(cs + [c], f) <==> HoldsAll(cs, f) && Holds(c, f)
  {
    if HoldsAll(cs, f) && Holds(c, f) {
      forall i | 0 <= i < |cs + [c]| ensures Holds((cs + [c])[i], f) {
        if i < |cs| { assert (cs + [c])[i] == cs[i]; }
      }
    }
    if HoldsAll(cs + [c], f) {
      assert (cs + [c])[|cs|] == c;
      forall i | 0 <= i < |cs| ensures Holds(cs[i], f) {
        assert (cs + [c])[i] == cs[i];
      }
    }
  }

  /** A WHERE clause whose conjuncts mean `keep` selects what `keep` filters. */
  lemma SelectMeaning(rows: seq<Film>, cs: seq<Cond>, keep: Film -> bool)
    requires forall f :: HoldsAll(cs, f) == keep(f)
    ensures Select(rows, cs) == Filter(rows, keep)
  {
    FilterCongruent(rows, f => HoldsAll(cs, f), keep);
  }

  // ---------------------------------------------------------------- aggregates

  /** `MIN(col)`: NULLs are skipped; NULL when no value is present. */
  function MinOf(ys: seq<Option<int>>): (r: Option<int>)
    ensures r.None? <==> forall i :: 0 <= i < |ys| ==> ys[i].None?
    ensures r.Some? ==> r in ys && forall i :: 0 <= i < |ys| && ys[i].Some? ==> r.value <= ys[i].value
  {
    if ys == [] then None
    else
      var m := MinOf(ys[1..]);
      if ys[0].None? then m
      else if m.None? || ys[0].value <= m.value then ys[0]
      else m
  }

  /** `MAX(col)`: NULLs are skipped; NULL when no value is present. */
  function MaxOf(ys: seq<Option<int>>): (r: Option<int>)
    ensures r.None? <==> forall i :: 0 <= i < |ys| ==> ys[i].None?
    ensures r.Some? ==> r in ys && forall i :: 0 <= i < |ys| && ys[i].Some? ==> ys[i].value <= r.value
  {
    if ys == [] then None
    else
      var m := MaxOf(ys[1..]);
      if ys[0].None? then m
      else if m.None? || ys[0].value >= m.value then ys[0]
      else m
  }

  // ---------------------------------------------------------------- statements

  /** The three statement shapes the repository sends. */
  datatype Query =
      /** `SELECT <film fields> ... [WHERE <conj>] ORDER BY <order> LIMIT <limit> OFFSET <offset>`;
          an empty conjunction means no WHERE clause. */
    | FilmSelect(where: seq<Pred>, order: Order, limit: int, offset: int)
      /** `SELECT COUNT(*) ... WHERE <conj>`; the WHERE keyword is always written. */
    | FilmCount(where: seq<Pred>)
      /** `SELECT MIN(release_year), MAX(release_year) FROM film`. */
    | YearBounds

  /** A query and the parameter list passed with it to `cursor.execute`. */
  datatype Statement = Statement(query: Query, params: seq<Param>)

  /**
   * The server's choice of row order. MySQL sorts a listing by its ORDER BY
   * column only; rows that tie on it may come back in any order, and the
   * order may differ from one statement to the next (another OFFSET, say).
   * An arrangement gives, for a statement and the rows it selects, the
   * order the server returns them in.
   */
  type Arrangement = (Statement, seq<Film>) -> seq<Film>

  /**
   * The tables the statements read: the joined rows, the `release_year`
   * column of `film` (NULL allowed), and how the server orders ties.
   */
  datatype Catalog = Catalog(rows: seq<Film>, releaseYears: seq<Option<int>>, arrange: Arrangement)

  /** What a successful statement fetches. */
  datatype Answer = Films(films: seq<Film>) | Count(n: nat) | Bounds(lo: Option<int>, hi: Option<int>)

  /** `b` is `a` reordered: the same rows, each as often. */
  predicate Permutes(a: seq<Film>, b: seq<Film>) {
    multiset(a) == multiset(b)
  }

  /**
   * The rows `sel` that statement `st` selects, in the order the server
   * returns them: the arrangement's order, which is one sorted by `o`.
   * (An arrangement that is not a sorted reordering stands for no server;
   * `Sort` takes its place.)
   */
  function Listing(st: Statement, c: Catalog, o: Order, sel: seq<Film>): (r: seq<Film>)
    ensures SortedBy(o, r) && Permutes(r, sel)
  {
    var a := c.arrange(st, sel);
    if SortedBy(o, a) && Permutes(a, sel) then a else Sort(o, sel)
  }

  /** Every sorted reordering of the selection is a listing some server returns. */
  lemma ListingCoversEveryOrder(st: Statement, c: Catalog, o: Order, sel: seq<Film>, l: seq<Film>)
    requires SortedBy(o, l) && Permutes(l, sel)
    ensures Listing(st, c.(arrange := (_, _) => l), o, sel) == l
  {
  }

  /** No two different rows of `rows` tie on the order `o`. */
  predicate TieFree(o: Order, rows: seq<Film>) {
    forall x, y :: x in rows && y in rows && Before(o, x, y) && Before(o, y, x) ==> x == y
  }

  /**
   * Without ties the order leaves no choice: two sorted reorderings of the
   * same rows are the same sequence.
   */
  lemma {:induction false} SortedUnique(o: Order, a: seq<Film>, b: seq<Film>)
    requires SortedBy(o, a) && SortedBy(o, b) && Permutes(a, b) && TieFree(o, a)
    ensures a == b
    decreases |a|
  {
    assert |a| == |multiset(a)| == |multiset(b)| == |b|;
    if a != [] {
      SameHead(o, a, b);
      PermutesTail(a, b);
      SortedTail(o, a);
      SortedTail(o, b);
      TieFreeTail(o, a);
      SortedUnique(o, a[1..], b[1..]);
      assert a == [a[0]] + a[1..] && b == [b[0]] + b[1..];
    }
  }

  /** Two sorted reorderings of tie-free rows start with the same row. */
  lemma SameHead(o: Order, a: seq<Film>, b: seq<Film>)
    requires SortedBy(o, a) && SortedBy(o, b) && Permutes(a, b) && TieFree(o, a)
    requires a != [] && b != []
    ensures a[0] == b[0]
  {
    assert a[0] in multiset(b) && b[0] in multiset(a);
    var j :| 0 <= j < |b| && b[j] == a[0];
    var i :| 0 <= i < |a| && a[i] == b[0];
    if i != 0 && j != 0 {
      assert Before(o, a[0], a[i]) && Before(o, b[0], b[j]);
      assert a[0] in a && a[i] in a;
    }
  }

  /** Reorderings that agree on the head agree on the tail. */
  lemma PermutesTail(a: seq<Film>, b: seq<Film>)
    requires Permutes(a, b) && a != [] && b != [] && a[0] == b[0]
    ensures Permutes(a[1..], b[1..])
  {
    assert a == [a[0]] + a[1..] && b == [b[0]] + b[1..];
    assert multiset(a[1..]) == multiset(a) - multiset{a[0]};
    assert multiset(b[1..]) == multiset(b) - multiset{b[0]};
  }

  lemma SortedTail(o: Order, s: seq<Film>)
    requires SortedBy(o, s) && s != []
    ensures SortedBy(o, s[1..])
  {
    forall p, q | 0 <= p < q < |s| - 1 ensures Before(o, s[1..][p], s[1..][q]) {
      assert s[1..][p] == s[p + 1] && s[1..][q] == s[q + 1];
    }
  }

  lemma TieFreeTail(o: Order, s: seq<Film>)
    requires TieFree(o, s) && s != []
    ensures TieFree(o, s[1..])
  {
    forall x | x in s[1..] ensures x in s {
      var k :| 0 <= k < |s[1..]| && s[1..][k] == x;
      assert s[k + 1] == x;
    }
  }

  /** Without ties, every server returns the selection exactly as `Sort` orders it. */
  lemma ListingIsSort(st: Statement, c: Catalog, o: Order, sel: seq<Film>)
    requires TieFree(o, sel)
    ensures Listing(st, c, o, sel) == Sort(o, sel)
  {
    var l := Listing(st, c, o, sel);
    assert TieFree(o, l) by {
      forall x | x in l ensures x in sel {
        assert x in multiset(l);
      }
    }
    SortedUnique(o, l, Sort(o, sel));
  }

  /**
   * Runs a statement against the catalog. `Failure` is a driver or server
   * error: a parameter list that does not fit the placeholders, a WHERE
   * keyword with nothing after it, a negative LIMIT or OFFSET, or
   * parameters passed to the year-bounds query that has no placeholder.
   */
  function Execute(st: Statement, db: Catalog): (r: Result<Answer>)
    ensures st.query.FilmSelect? ==>
      (r.Ok? <==> st.query.limit >= 0 && st.query.offset >= 0 && Bind(st.query.where, st.params).Ok?)
    ensures st.query.FilmSelect? && r.Ok? ==> r.value.Films? && |r.value.films| <= st.query.limit
    ensures st.query.FilmCount? ==> (r.Ok? <==> st.query.where != [] && Bind(st.query.where, st.params).Ok?)
    ensures st.query.FilmCount? && r.Ok? ==> r.value.Count? && r.value.n <= |db.rows|
    ensures st.query.YearBounds? ==> (r.Ok? <==> st.params == [])
    ensures st.query.YearBounds? && r.Ok? ==> r.value.Bounds?
  {
    match st.query
    case FilmSelect(where, order, limit, offset) =>
      if limit < 0 || offset < 0 then Failure
      else
        (match Bind(where, st.params)
         case Failure => Failure
         case Ok(cs) => Ok(Films(Window(Listing(st, db, order, Select(db.rows, cs)), offset, limit))))
    case FilmCount(where) =>
      if where == [] then Failure
      else
        (match Bind(where, st.params)
         case Failure => Failure
         case Ok(cs) => Ok(Count(|Select(db.rows, cs)|)))
    case YearBounds =>
      if st.params != [] then Failure
      else Ok(Bounds(MinOf(db.releaseYears), MaxOf(db.releaseYears)))
  }

  /**
   * What a listing statement returns, whatever its WHERE clause: row `k` of
   * the page is row `offset + k` of the server's listing of the selected
   * rows, there are as many as the window holds, the page is in the
   * statement's order, and each of its rows is a catalog row that satisfies
   * every bound predicate.
   */
  lemma ListingPage(st: Statement, db: Catalog)
    requires st.query.FilmSelect? && Execute(st, db).Ok?
    ensures var q := st.query;
      var sel := Select(db.rows, Bind(q.where, st.params).value);
      var page := Execute(st, db).value.films;
      && |page| == Min(q.limit, |sel| - Min(q.offset, |sel|))
      && (forall k :: 0 <= k < |page| ==> page[k] == Listing(st, db, q.order, sel)[q.offset + k])
      && SortedBy(q.order, page)
      && forall f :: f in page ==>
           f in db.rows && HoldsAll(Bind(q.where, st.params).value, f)
  {
    var q := st.query;
    var cs := Bind(q.where, st.params).value;
    var sel := Select(db.rows, cs);
    var all := Listing(st, db, q.order, sel);
    SelectWindow(st, db);
    PermutesLength(all, sel);
    SortedPage(q.order, all, db.rows, f => HoldsAll(cs, f), q.offset, q.limit);
  }

  /** Reorderings have the same length. */
  lemma PermutesLength(a: seq<Film>, b: seq<Film>)
    requires Permutes(a, b)
    ensures |a| == |b|
  {
    assert |a| == |multiset(a)| == |multiset(b)| == |b|;
  }

  /** A listing statement that runs returns its window of the listing. */
  lemma SelectWindow(st: Statement, db: Catalog)
    requires st.query.FilmSelect? && Execute(st, db).Ok?
    ensures var q := st.query;
      Execute(st, db).value.films
        == Window(Listing(st, db, q.order, Select(db.rows, Bind(q.where, st.params).value)), q.offset, q.limit)
  {
  }

  /**
   * A window of a sorted reordering of the filtered rows is sorted, and
   * holds only rows of the table that the filter accepts.
   */
  lemma SortedPage(o: Order, all: seq<Film>, rows: seq<Film>, keep: Film -> bool, offset: nat, limit: nat)
    requires SortedBy(o, all) && Permutes(all, Filter(rows, keep))
    ensures var page := Window(all, offset, limit);
      && SortedBy(o, page)
      && forall f :: f in page ==> f in rows && keep(f)
  {
    WindowSorted(o, all, offset, limit);
    forall f | f in Window(all, offset, limit) ensures f in rows && keep(f) {
      WindowMember(all, offset, limit, f);
      FilterCount(rows, keep, f);
      assert multiset(Filter(rows, keep))[f] > 0;
    }
  }

  /** A window of a sorted sequence is sorted. */
  lemma WindowSorted(o: Order, all: seq<Film>, offset: nat, limit: nat)
    requires SortedBy(o, all)
    ensures SortedBy(o, Window(all, offset, limit))
  {
    var page := Window(all, offset, limit);
    forall i, j | 0 <= i < j < |page| ensures Before(o, page[i], page[j]) {
      assert page[i] == all[offset + i] && page[j] == all[offset + j];
    }
  }

  /** A row of a window is a row of the sequence it is cut from. */
  lemma WindowMember(all: seq<Film>, offset: nat, limit: nat, f: Film)
    requires f in Window(all, offset, limit)
    ensures f in multiset(all)
  {
    var page := Window(all, offset, limit);
    var k :| 0 <= k < |page| && page[k] == f;
    assert all[offset + k] == f;
  }
}
