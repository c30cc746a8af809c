/**
 * Input validators: total normalisers for the values a request carries
 * (page number, year, free-text query, genre name, year range). None of
 * them raises; each maps bad input to a safe value.
 */
module Validators {
  import opened Prelude
  import opened Py

  /**
   * A request value as Python sees it: `None`, an `int` (a query parameter
   * FastAPI already converted) or a `str` (a form field).
   */
  datatype Raw = Missing | Num(n: int) | Text(s: string)

  /** Python truthiness: `None`, `0` and `""` are falsy. */
  predicate Truthy(r: Raw) {
    match r
    case Missing => false
    case Num(n) => n != 0
    case Text(s) => s != []
  }

  /** `str(r)`. */
  function Str(r: Raw): string {
    match r
    case Missing => "None"
    case Num(n) => IntText(n)
    case Text(s) => s
  }

  /** `int(r)`; `None` stands for the `ValueError` or `TypeError` it raises. */
  function ToInt(r: Raw): Option<int> {
    match r
    case Missing => None
    case Num(n) => Some(n)
    case Text(s) => ParseInt(s)
  }

  const MinYear := 1900
  const MaxYear := 2100
  const MaxQueryLength := 100

  /** `validate_year`: the year when `int()` accepts it and it lies in [1900, 2100]. */
  function ValidateYear(year: Raw): (r: Option<int>)
    ensures r.Some? ==> MinYear <= r.value <= MaxYear
    ensures r.Some? ==> ToInt(year) == r
  {
    if !Truthy(year) || Strip(Str(year)) == [] || Str(year) == "None" then None
    else match ToInt(year)
      case None => None
      case Some(y) => if MinYear <= y <= MaxYear then Some(y) else None
  }

  /**
   * The year guards before `int()` reject nothing `int()` itself would
   * accept: the result is `y` exactly when the input converts to `y` and
   * `y` is a year in range.
   */
  lemma ValidateYearExactly(year: Raw, y: int)
    ensures ValidateYear(year) == Some(y) <==> ToInt(year) == Some(y) && MinYear <= y <= MaxYear
  {
    if ToInt(year) == Some(y) && MinYear <= y <= MaxYear {
      match year
      case Num(n) =>
        IntTextShape(n);
      case Text(s) =>
        NoneIsNotInt();
    }
  }

  /** `int("None")` raises. */
  lemma NoneIsNotInt()
    ensures ParseInt("None").None?
  {
    var none := "None";
    assert none[0] == 'N' && none[|none| - 1] == 'e';
    ParseNonNumeric(none);
  }

  /** A year typed into a form validates exactly as the same number passed as an `int`. */
  lemma ValidateYearText(n: int)
    ensures ValidateYear(Text(IntText(n))) == ValidateYear(Num(n))
  {
    ParseIntText(n);
    if MinYear <= n <= MaxYear {
      ValidateYearExactly(Text(IntText(n)), n);
      ValidateYearExactly(Num(n), n);
    }
  }

  /**
   * `validate_page_param`: a page number of at least 1; a positive
   * number comes back as it is, anything else becomes page 1.
   */
  function ValidatePage(page: Raw): (r: int)
    ensures r >= 1
    ensures ToInt(page).Some? && ToInt(page).value >= 1 ==> r == ToInt(page).value
    ensures ToInt(page).None? || ToInt(page).value < 1 ==> r == 1
  {
    if !Truthy(page) then 1
    else match ToInt(page)
      case None => 1
      case Some(p) => Max(1, p)
  }

  /** `int()` reads any Unicode decimal digits: a full-width "５" is page 5. */
  lemma ValidatePageFullWidth()
    ensures ValidatePage(Text("\U{FF15}")) == 5
  {
    var t := "\U{FF15}";
    forall j | 1 <= j < 36 ensures ZeroAt(j) + 10 <= 0xFF15 {}
    RunZeroFinds(0xFF15, 1, 36);
    assert IsDigit(t[0]) && DigitValue(t[0]) == 5;
    assert DigitRun(t) && RunValue(t) == 5;
    ParseTrimmed(t);
  }

  /**
   * `int()` does not skip the information separators U+001C..U+001F that
   * `str.strip()` removes: `"\x1c5"` is page 1, not page 5, and `"\x1f1999"`
   * is no year, while a year padded with ordinary spaces is read.
   */
  lemma ValidateSeparators()
    ensures ValidatePage(Text("\U{1C}5")) == 1
    ensures ValidateYear(Text("\U{1F}1999")).None?
    ensures ValidateYear(Text(" 1999 ")) == Some(1999)
  {
    var page, year, spaced := "\U{1C}5", "\U{1F}1999", " 1999 ";
    assert InfoSeparator(page[0]) && InfoSeparator(year[0]);
    assert ToInt(Text(page)).None? && ToInt(Text(year)).None?;
    SpacedYear();
    assert ToInt(Text(spaced)) == Some(1999);
    assert Truthy(Text(spaced)) && Strip(Str(Text(spaced))) != [] && Str(Text(spaced)) != "None";
  }

  /** `int(" 1999 ") == 1999`: ordinary spaces around the digits are skipped. */
  lemma SpacedYear()
    ensures Strip(" 1999 ") == "1999" && ParseInt(" 1999 ") == Some(1999)
  {
    var space, digits := " ", "1999";
    assert AllSpace(space) && !SeparatorIn(space);
    assert !IsSpace(digits[0]) && !IsSpace(digits[3]);
    assert space + digits + space == " 1999 ";
    StripPadded(space, digits, space);
    StripTrimmed(digits);
    YearDigits();
    ParsePadded(space, digits, space);
  }

  /** The digits `"1999"` spell 1999. */
  lemma YearDigits()
    ensures DigitRun("1999") && RunValue("1999") == 1999
  {
    var digits := "1999";
    assert digits[..3] == "199" && "199"[..2] == "19" && "19"[..1] == "1";
    assert RunValue("1") == 1;
    assert RunValue("19") == 19;
    assert RunValue("199") == 199;
  }

  /** A page number typed into a form is read exactly as the same `int`. */
  lemma ValidatePageText(n: int)
    ensures ValidatePage(Text(IntText(n))) == ValidatePage(Num(n))
  {
    ParseIntText(n);
  }

  /** Python's `not q or not q.strip()` on an optional string. */
  predicate Blank(q: Option<string>) {
    q.None? || q.value == [] || Strip(q.value) == []
  }

  /**
   * `validate_search_query`: "" for a blank query, otherwise the stripped
   * query cut to its first 100 characters.
   */
  function ValidateSearchQuery(query: Option<string>): (r: string)
    ensures |r| <= MaxQueryLength
    ensures r == [] <==> Blank(query)
    ensures !Blank(query) ==> |r| == Min(|Strip(query.value)|, MaxQueryLength)
    ensures !Blank(query) ==> r == Strip(query.value)[..|r|]
  {
    if query.None? || query.value == [] || Strip(query.value) == [] then []
    else
      var q := Strip(query.value);
      if |q| > MaxQueryLength then q[..MaxQueryLength] else q
  }

  /** An already trimmed, non-empty query of at most 100 characters passes unchanged. */
  lemma ValidateSearchQueryKeeps(q: string)
    requires q != [] && Trimmed(q) && |q| <= MaxQueryLength
    ensures ValidateSearchQuery(Some(q)) == q
  {
    StripTrimmed(q);
  }

  /**
   * The validator is not idempotent in general: cutting at 100 characters
   * can leave a trailing blank, which a second call strips.
   */
  lemma ValidateSearchQueryNotIdempotent()
    ensures var q := seq(99, _ => 'a') + " bb";
      ValidateSearchQuery(Some(ValidateSearchQuery(Some(q)))) != ValidateSearchQuery(Some(q))
  {
    var q := seq(99, _ => 'a') + " bb";
    assert Trimmed(q);
    StripTrimmed(q);
    var once := q[..MaxQueryLength];
    assert ValidateSearchQuery(Some(q)) == once;
    assert once[|once| - 1] == ' ';
    assert |Strip(once)| < |once| by {
      assert !Trimmed(once);
    }
  }

  /**
   * `validate_genre_name`: `None` and "" give `None` (no genre), a string
   * of blanks gives "", anything else its strip.
   */
  function ValidateGenreName(genre: Option<string>): (r: Option<string>)
    ensures r.None? <==> genre.None? || genre.value == []
    ensures r.Some? ==> r.value == Strip(genre.value)
    ensures r == Some([]) <==> genre.Some? && genre.value != [] && AllSpace(genre.value)
  {
    if genre.Some? && genre.value != [] && Strip(genre.value) == [] then Some([])
    else if genre.Some? && genre.value != [] then Some(Strip(genre.value))
    else None
  }

  /**
   * `validate_year_range`: both years validated, then swapped when both are
   * given and out of order. Each component is `None` or a year in range,
   * the pair is ordered, and no value is lost or invented by the swap.
   */
  function ValidateYearRange(yearFrom: Raw, yearTo: Raw): (r: (Option<int>, Option<int>))
    ensures r.0.Some? ==> MinYear <= r.0.value <= MaxYear
    ensures r.1.Some? ==> MinYear <= r.1.value <= MaxYear
    ensures r.0.Some? && r.1.Some? ==> r.0.value <= r.1.value
    ensures multiset{r.0, r.1} == multiset{ValidateYear(yearFrom), ValidateYear(yearTo)}
    ensures ValidateYear(yearFrom).None? || ValidateYear(yearTo).None? ==>
      r == (ValidateYear(yearFrom), ValidateYear(yearTo))
  {
    var f := ValidateYear(yearFrom);
    var t := ValidateYear(yearTo);
    if IntTruthy(f) && IntTruthy(t) && f.value > t.value then (t, f) else (f, t)
  }
}
