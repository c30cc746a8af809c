/**
 * The parts of Python's built-in `str` and `int` that the application leans on:
 * truthiness, `str.isspace`, `str.strip`, `str.lower`, `str(int)` and `int(str)`.
 */
module Py {
  import opened Prelude

  // ---------------------------------------------------------------- truthiness

  /** Python truthiness of an `int | None`: None and 0 are falsy. */
  predicate IntTruthy(x: Option<int>) {
    x.Some? && x.value != 0
  }

  // ---------------------------------------------------------------- whitespace

  /** `str.isspace()` on one character (the Unicode White_Space set Python uses). */
  predicate IsSpace(c: char) {
    || c == ' '
    || ('\t' <= c <= '\r')
    || ('\U{1C}' <= c <= '\U{1F}')
    || c == '\U{85}' || c == '\U{A0}' || c == '\U{1680}'
    || ('\U{2000}' <= c <= '\U{200A}')
    || c == '\U{2028}' || c == '\U{2029}' || c == '\U{202F}' || c == '\U{205F}' || c == '\U{3000}'
  }

  /**
   * The ASCII information separators U+001C..U+001F. `str.isspace()` and
   * `str.strip()` count them as whitespace, but `int()` does not: it skips
   * only the ASCII blanks `' '` and `'\t'`..`'\r'` and the non-ASCII
   * whitespace, so a separator anywhere in its argument makes it fail.
   */
  predicate InfoSeparator(c: char) {
    '\U{1C}' <= c <= '\U{1F}'
  }

  /** Some character of `s` is an information separator. */
  predicate SeparatorIn(s: string) {
    exists i :: 0 <= i < |s| && InfoSeparator(s[i])
  }

  /** Every character of `s` is whitespace (true of the empty string). */
  predicate AllSpace(s: string) {
    forall i :: 0 <= i < |s| ==> IsSpace(s[i])
  }

  /** Every character of `s` from index `i` up to (not including) `j` is whitespace. */
  predicate SpaceBetween(s: string, i: nat, j: nat)
    requires i <= j <= |s|
  {
    forall k :: i <= k < j ==> IsSpace(s[k])
  }

  /** Neither end of `s` is whitespace. */
  predicate Trimmed(s: string) {
    s == [] || (!IsSpace(s[0]) && !IsSpace(s[|s| - 1]))
  }

  /** The index of the first character at or after `i` that is not whitespace (`|s|` if none). */
  function Lead(s: string, i: nat): (r: nat)
    requires i <= |s|
    ensures i <= r <= |s| && SpaceBetween(s, i, r)
    ensures r < |s| ==> !IsSpace(s[r])
    decreases |s| - i
  {
    if i < |s| && IsSpace(s[i]) then Lead(s, i + 1) else i
  }

  /** The end of `s[i..j]` once its trailing whitespace is dropped. */
  function Trail(s: string, i: nat, j: nat): (r: nat)
    requires i <= j <= |s|
    ensures i <= r <= j && SpaceBetween(s, r, j)
    ensures r > i ==> !IsSpace(s[r - 1])
    decreases j
  {
    if j > i && IsSpace(s[j - 1]) then Trail(s, i, j - 1) else j
  }

  /**
   * `str.strip()`: what is left of `s` after removing whitespace at both
   * ends; it is empty exactly when `s` is all whitespace (see `StripAt` for
   * where it sits in `s`).
   */
  function Strip(s: string): (r: string)
    ensures |r| <= |s| && Trimmed(r)
    ensures r == [] <==> AllSpace(s)
  {
    var i := Lead(s, 0);
    var j := Trail(s, i, |s|);
    assert i == j ==> AllSpace(s) by {
      if i == j { SpacesAround(s, i); }
    }
    s[i..j]
  }

  /** A string that is whitespace before and from `i` on is whitespace throughout. */
  lemma SpacesAround(s: string, i: nat)
    requires i <= |s| && SpaceBetween(s, 0, i) && SpaceBetween(s, i, |s|)
    ensures AllSpace(s)
  {
  }

  /** Slices of whitespace, stated on the slice or on the indices. */
  lemma SpaceSlice(s: string, i: nat, j: nat)
    requires i <= j <= |s|
    ensures AllSpace(s[i..j]) <==> SpaceBetween(s, i, j)
  {
    if SpaceBetween(s, i, j) {
      forall k | 0 <= k < j - i ensures IsSpace(s[i..j][k]) {
        assert s[i..j][k] == s[i + k];
      }
    }
    if AllSpace(s[i..j]) {
      forall k | i <= k < j ensures IsSpace(s[k]) {
        assert s[i..j][k - i] == s[k];
      }
    }
  }

  /**
   * Whitespace up to `i`, non-whitespace at `i` and `j - 1` (when `i < j`),
   * whitespace from `j` on: then `Strip(s)` is `s[i..j]`.
   */
  lemma StripBetween(s: string, i: nat, j: nat)
    requires i <= j <= |s|
    requires SpaceBetween(s, 0, i) && SpaceBetween(s, j, |s|)
    requires i < j ==> !IsSpace(s[i]) && !IsSpace(s[j - 1])
    ensures Strip(s) == s[i..j]
  {
    var a := Lead(s, 0);
    if i == j {
      SpacesAround(s, i);
      assert a == |s|;
      assert Trail(s, a, |s|) == |s|;
    } else {
      assert a == i;
      assert Trail(s, a, |s|) == j;
    }
  }

  /** `Strip(s)` is the slice `s[i..i + |Strip(s)|]`, with only whitespace around it. */
  lemma StripAt(s: string) returns (i: nat)
    ensures i + |Strip(s)| <= |s|
    ensures s[i..i + |Strip(s)|] == Strip(s)
    ensures AllSpace(s[..i]) && AllSpace(s[i + |Strip(s)|..])
  {
    i := Lead(s, 0);
    var j := Trail(s, i, |s|);
    assert Strip(s) == s[i..j];
    SpaceSlice(s, 0, i);
    SpaceSlice(s, j, |s|);
    assert s[0..i] == s[..i] && s[j..|s|] == s[j..];
  }

  /** Any split of `s` into whitespace, a trimmed middle and whitespace is the one `Strip` finds. */
  lemma StripUnique(s: string, i: nat, j: nat)
    requires i <= j <= |s|
    requires AllSpace(s[..i]) && AllSpace(s[j..]) && Trimmed(s[i..j])
    ensures Strip(s) == s[i..j]
  {
    SpaceSlice(s, 0, i);
    SpaceSlice(s, j, |s|);
    assert s[0..i] == s[..i] && s[j..|s|] == s[j..];
    if i < j {
      assert s[i..j][0] == s[i] && s[i..j][j - i - 1] == s[j - 1];
    }
    StripBetween(s, i, j);
  }

  /** A string with no whitespace at either end is its own strip. */
  lemma StripTrimmed(s: string)
    requires Trimmed(s)
    ensures Strip(s) == s
  {
    StripBetween(s, 0, |s|);
    assert s[0..|s|] == s;
  }

  /** Stripping twice is stripping once. */
  lemma StripIdempotent(s: string)
    ensures Strip(Strip(s)) == Strip(s)
  {
    StripTrimmed(Strip(s));
  }

  /** Whitespace added at either end is stripped away again. */
  lemma StripPadded(l: string, m: string, r: string)
    requires AllSpace(l) && AllSpace(r)
    ensures Strip(l + m + r) == Strip(m)
  {
    var i := Lead(m, 0);
    var j := Trail(m, i, |m|);
    StripBetween(m, i, j);
    PaddedStrip(l, m, r, i, j);
  }

  /** Padding `m` with whitespace keeps the bounds `StripBetween` needs, shifted by `|l|`. */
  lemma PaddedStrip(l: string, m: string, r: string, i: nat, j: nat)
    requires AllSpace(l) && AllSpace(r)
    requires i <= j <= |m| && SpaceBetween(m, 0, i) && SpaceBetween(m, j, |m|)
    requires i < j ==> !IsSpace(m[i]) && !IsSpace(m[j - 1])
    ensures Strip(l + m + r) == m[i..j]
  {
    var s := l + m + r;
    PaddedLeft(l, m, r, i);
    PaddedRight(l, m, r, j);
    PaddedMiddle(l, m, r, i, j);
    StripBetween(s, |l| + i, |l| + j);
  }

  /** The middle of the padded string is the middle of `m`. */
  lemma PaddedMiddle(l: string, m: string, r: string, i: nat, j: nat)
    requires i <= j <= |m|
    ensures (l + m + r)[|l| + i..|l| + j] == m[i..j]
    ensures i < j ==> (l + m + r)[|l| + i] == m[i] && (l + m + r)[|l| + j - 1] == m[j - 1]
  {
  }

  /** Whitespace before `m[i]` stays whitespace when `l` is put in front. */
  lemma PaddedLeft(l: string, m: string, r: string, i: nat)
    requires AllSpace(l) && i <= |m| && SpaceBetween(m, 0, i)
    ensures SpaceBetween(l + m + r, 0, |l| + i)
  {
    var s := l + m + r;
    forall k | 0 <= k < |l| + i ensures IsSpace(s[k]) {
      if k < |l| { assert s[k] == l[k]; } else { assert s[k] == m[k - |l|]; }
    }
  }

  /** Whitespace from `m[j]` on stays whitespace when `r` is put behind. */
  lemma PaddedRight(l: string, m: string, r: string, j: nat)
    requires AllSpace(r) && j <= |m| && SpaceBetween(m, j, |m|)
    ensures SpaceBetween(l + m + r, |l| + j, |l + m + r|)
  {
    var s := l + m + r;
    forall k | |l| + j <= k < |s| ensures IsSpace(s[k]) {
      if k < |l| + |m| { assert s[k] == m[k - |l|]; } else { assert s[k] == r[k - |l| - |m|]; }
    }
  }

  // ---------------------------------------------------------------- lower case

  /**
   * `str.lower()` on one character, for ASCII, Latin-1 and the basic Cyrillic
   * block (the scripts the application's users type).
   */
  function LowerChar(c: char): char {
    if 'A' <= c <= 'Z' || ('\U{C0}' <= c <= '\U{DE}' && c != '\U{D7}') || ('\U{410}' <= c <= '\U{42F}') then
      (c as int + 32) as char
    else if '\U{400}' <= c <= '\U{40F}' then
      (c as int + 80) as char
    else
      c
  }

  /** `str.lower()` character by character: the length stays. */
  function Lower(s: string): (r: string)
    ensures |r| == |s|
  {
    seq(|s|, i requires 0 <= i < |s| => LowerChar(s[i]))
  }

  /** Lower-casing changes no character's whitespace-ness and is idempotent. */
  lemma LowerCharFacts(c: char)
    ensures IsSpace(LowerChar(c)) <==> IsSpace(c)
    ensures LowerChar(LowerChar(c)) == LowerChar(c)
    ensures LowerChar(c) == '%' <==> c == '%'
    ensures LowerChar(c) == '_' <==> c == '_'
    ensures LowerChar(c) == '\\' <==> c == '\\'
  {
  }

  lemma LowerIdempotent(s: string)
    ensures Lower(Lower(s)) == Lower(s)
  {
    forall i | 0 <= i < |s| ensures Lower(Lower(s))[i] == Lower(s)[i] {
      LowerCharFacts(s[i]);
    }
  }

  lemma LowerAppend(a: string, b: string)
    ensures Lower(a + b) == Lower(a) + Lower(b)
  {
    assert |Lower(a + b)| == |Lower(a) + Lower(b)|;
    forall i | 0 <= i < |a + b| ensures Lower(a + b)[i] == (Lower(a) + Lower(b))[i] {
      if i >= |a| { assert (a + b)[i] == b[i - |a|]; }
    }
  }

  /** Lower-casing a slice keeps its whitespace where it was. */
  lemma LowerSliceSpace(s: string, i: nat, j: nat)
    requires i <= j <= |s|
    ensures Lower(s)[i..j] == Lower(s[i..j])
    ensures AllSpace(Lower(s)[i..j]) <==> AllSpace(s[i..j])
    ensures Trimmed(Lower(s)[i..j]) <==> Trimmed(s[i..j])
  {
    var u := s[i..j];
    assert Lower(s)[i..j] == Lower(u);
    forall k | 0 <= k < |u| ensures IsSpace(Lower(u)[k]) <==> IsSpace(u[k]) {
      LowerCharFacts(u[k]);
    }
  }

  /** Lower-casing and stripping commute, since case never touches whitespace. */
  lemma StripLower(s: string)
    ensures Strip(Lower(s)) == Lower(Strip(s))
  {
    var t := Lower(s);
    var i := Lead(s, 0);
    var j := Trail(s, i, |s|);
    LeadLower(s, 0);
    TrailLower(s, i, |s|);
    assert Strip(t) == t[i..j];
    LowerSliceSpace(s, i, j);
  }

  /** Lower-casing moves no whitespace, so the first non-space index stays. */
  lemma {:induction false} LeadLower(s: string, i: nat)
    requires i <= |s|
    ensures Lead(Lower(s), i) == Lead(s, i)
    decreases |s| - i
  {
    if i < |s| {
      LowerCharFacts(s[i]);
      LeadLower(s, i + 1);
    }
  }

  /** Lower-casing moves no whitespace, so the end of the trimmed text stays. */
  lemma {:induction false} TrailLower(s: string, i: nat, j: nat)
    requires i <= j <= |s|
    ensures Trail(Lower(s), i, j) == Trail(s, i, j)
    decreases j
  {
    if j > i {
      LowerCharFacts(s[j - 1]);
      TrailLower(s, i, j - 1);
    }
  }

  // ---------------------------------------------------------------- digits

  /** How many runs of ten decimal digits Unicode has (version 15.0). */
  const Runs := 68

  /**
   * The code point of the digit zero of run `i`, in increasing order: every
   * run of ten decimal digits in the Unicode Character Database (general
   * category Nd) holds the digits zero to nine in order; the first is ASCII.
   */
  function ZeroAt(i: nat): int
    requires i < Runs
  {
    match i
    case 0 => 0x30 case 1 => 0x660 case 2 => 0x6F0 case 3 => 0x7C0 case 4 => 0x966 case 5 => 0x9E6 case 6 => 0xA66 case 7 => 0xAE6
    case 8 => 0xB66 case 9 => 0xBE6 case 10 => 0xC66 case 11 => 0xCE6 case 12 => 0xD66 case 13 => 0xDE6 case 14 => 0xE50 case 15 => 0xED0
    case 16 => 0xF20 case 17 => 0x1040 case 18 => 0x1090 case 19 => 0x17E0 case 20 => 0x1810 case 21 => 0x1946 case 22 => 0x19D0 case 23 => 0x1A80
    case 24 => 0x1A90 case 25 => 0x1B50 case 26 => 0x1BB0 case 27 => 0x1C40 case 28 => 0x1C50 case 29 => 0xA620 case 30 => 0xA8D0 case 31 => 0xA900
    case 32 => 0xA9D0 case 33 => 0xA9F0 case 34 => 0xAA50 case 35 => 0xABF0 case 36 => 0xFF10 case 37 => 0x104A0 case 38 => 0x10D30 case 39 => 0x11066
    case 40 => 0x110F0 case 41 => 0x11136 case 42 => 0x111D0 case 43 => 0x112F0 case 44 => 0x11450 case 45 => 0x114D0 case 46 => 0x11650 case 47 => 0x116C0
    case 48 => 0x11730 case 49 => 0x118E0 case 50 => 0x11950 case 51 => 0x11C50 case 52 => 0x11D50 case 53 => 0x11DA0 case 54 => 0x11F50 case 55 => 0x16A60
    case 56 => 0x16AC0 case 57 => 0x16B50 case 58 => 0x1D7CE case 59 => 0x1D7D8 case 60 => 0x1D7E2 case 61 => 0x1D7EC case 62 => 0x1D7F6 case 63 => 0x1E140
    case 64 => 0x1E2F0 case 65 => 0x1E4F0 case 66 => 0x1E950 case _ => 0x1FBF0
  }
  /** The zero of the run, among runs `i` and later, that holds code point `x`. */
  function RunZero(x: int, i: nat): (z: Option<int>)
    requires i <= Runs
    ensures z.Some? ==> z.value <= x < z.value + 10
    decreases Runs - i
  {
    if i == Runs then None
    else if ZeroAt(i) <= x < ZeroAt(i) + 10 then Some(ZeroAt(i))
    else RunZero(x, i + 1)
  }

  /** `RunZero` from `i` finds the run `k` when no earlier run reaches `x`. */
  lemma {:induction false} RunZeroFinds(x: int, i: nat, k: nat)
    requires i <= k < Runs && ZeroAt(k) <= x < ZeroAt(k) + 10
    requires forall j :: i <= j < k ==> ZeroAt(j) + 10 <= x
    ensures RunZero(x, i) == Some(ZeroAt(k))
    decreases k - i
  {
    if i < k { RunZeroFinds(x, i + 1, k); }
  }
  /**
   * A decimal digit as `int()` reads one: an ASCII digit or any other
   * Unicode decimal digit, such as the full-width `'５'`. Every other run
   * starts above U+0660.
   */
  predicate IsDigit(c: char) {
    || '0' <= c <= '9'
    || (c as int >= 0x660 && RunZero(c as int, 1).Some?)
  }

  function DigitValue(c: char): (d: nat)
    requires IsDigit(c)
    ensures d < 10
  {
    if '0' <= c <= '9' then c as int - '0' as int
    else c as int - RunZero(c as int, 1).value
  }

  // ---------------------------------------------------------------- str(int)

  /** `str()` writes ASCII digits. */
  function DigitChar(d: nat): (c: char)
    requires d < 10
    ensures '0' <= c <= '9' && IsDigit(c) && DigitValue(c) == d
  {
    ('0' as int + d) as char
  }

  /** Decimal digits of a natural number, most significant first, no leading zeros. */
  function NatText(n: nat): (r: string)
    ensures r != [] && forall i :: 0 <= i < |r| ==> '0' <= r[i] <= '9'
    decreases n
  {
    if n < 10 then [DigitChar(n)] else NatText(n / 10) + [DigitChar(n % 10)]
  }

  /** `str(n)` for a Python `int`: a minus sign exactly for a negative number, then ASCII digits. */
  function IntText(n: int): (r: string)
    ensures r != [] && (r[0] == '-' <==> n < 0)
    ensures forall i :: (if n < 0 then 1 else 0) <= i < |r| ==> '0' <= r[i] <= '9'
  {
    if n < 0 then "-" + NatText(-n) else NatText(n)
  }

  // ---------------------------------------------------------------- int(str)

  /**
   * The digit part `int()` accepts: decimal digits, where an underscore may
   * separate two digits (`"1_000"`), but may not lead, trail or double.
   */
  predicate DigitRun(d: string) {
    && DigitsOrUnderscores(d)
    && |d| > 0
    && IsDigit(d[0])
    && IsDigit(d[|d| - 1])
    && forall i :: 0 <= i < |d| - 1 ==> DigitAfterUnderscore(d, i)
  }

  /** An underscore at `i` is followed by a digit. */
  predicate DigitAfterUnderscore(d: string, i: nat)
    requires i + 1 < |d|
  {
    d[i] == '_' ==> IsDigit(d[i + 1])
  }

  predicate DigitsOrUnderscores(d: string) {
    forall i :: 0 <= i < |d| ==> IsDigit(d[i]) || d[i] == '_'
  }

  /** The number a digit run spells, ignoring the underscores. */
  function RunValue(d: string): nat
    requires DigitsOrUnderscores(d)
  {
    if d == [] then 0
    else if d[|d| - 1] == '_' then RunValue(d[..|d| - 1])
    else RunValue(d[..|d| - 1]) * 10 + DigitValue(d[|d| - 1])
  }

  /**
   * `int(s)` for a string `s`: surrounding whitespace other than the
   * information separators is ignored, an optional sign may precede the
   * digit run; `None` stands for the `ValueError`. A separator in the
   * padding stops `int()` where it expects a sign or digit, and one inside
   * the number is no digit, so a separator anywhere is an error.
   */
  function ParseInt(s: string): (r: Option<int>)
    ensures AllSpace(s) ==> r.None?
    ensures r.Some? ==> forall i :: 0 <= i < |s| ==> !InfoSeparator(s[i])
    ensures r.Some? ==> var t := Strip(s);
      t != [] && IsDigit(t[|t| - 1]) && (IsDigit(t[0]) || t[0] == '+' || t[0] == '-')
  {
    if SeparatorIn(s) then None else ParseSigned(Strip(s))
  }

  /** `int()` on text already stripped: an optional sign, then a digit run. */
  function ParseSigned(t: string): Option<int> {
    if t != [] && (t[0] == '+' || t[0] == '-') then
      if DigitRun(t[1..]) then
        Some(if t[0] == '-' then -(RunValue(t[1..]) as int) else RunValue(t[1..]))
      else None
    else if DigitRun(t) then Some(RunValue(t))
    else None
  }

  /** Text with no whitespace at either end reaches the digit parser as it is. */
  lemma ParseTrimmed(t: string)
    requires Trimmed(t)
    ensures ParseInt(t) == ParseSigned(t)
  {
    StripTrimmed(t);
    if SeparatorIn(t) {
      var i :| 0 <= i < |t| && InfoSeparator(t[i]);
      SeparatorNotSigned(t, i);
    }
  }

  /** The digit parser rejects text holding an information separator. */
  lemma SeparatorNotSigned(t: string, i: nat)
    requires i < |t| && InfoSeparator(t[i])
    ensures ParseSigned(t).None?
  {
    assert !IsDigit(t[i]);
    if t[0] == '+' || t[0] == '-' {
      assert i > 0 && t[1..][i - 1] == t[i];
    }
  }

  /** A concatenation holds a separator exactly when one of its parts does. */
  lemma SeparatorInConcat(a: string, b: string)
    ensures SeparatorIn(a + b) <==> SeparatorIn(a) || SeparatorIn(b)
  {
    if SeparatorIn(a + b) {
      var k :| 0 <= k < |a + b| && InfoSeparator((a + b)[k]);
      if k < |a| { assert (a + b)[k] == a[k]; } else { assert (a + b)[k] == b[k - |a|]; }
    }
    if SeparatorIn(a) {
      var k :| 0 <= k < |a| && InfoSeparator(a[k]);
      assert (a + b)[k] == a[k];
    }
    if SeparatorIn(b) {
      var k :| 0 <= k < |b| && InfoSeparator(b[k]);
      assert (a + b)[|a| + k] == b[k];
    }
  }

  /**
   * `int()` on a number padded with whitespace: the padding is skipped
   * unless it holds an information separator, which makes `int()` fail.
   */
  lemma ParsePadded(l: string, m: string, r: string)
    requires AllSpace(l) && AllSpace(r) && Trimmed(m)
    ensures ParseInt(l + m + r) == if SeparatorIn(l) || SeparatorIn(r) then None else ParseSigned(m)
  {
    SeparatorInConcat(l + m, r);
    SeparatorInConcat(l, m);
    StripPadded(l, m, r);
    StripTrimmed(m);
    if SeparatorIn(m) {
      var i :| 0 <= i < |m| && InfoSeparator(m[i]);
      SeparatorNotSigned(m, i);
    }
  }

  /** `int("5")` is 5. */
  lemma ParseFive()
    ensures Trimmed("5") && Strip("5") == "5" && ParseSigned("5") == Some(5)
  {
    var five := "5";
    assert !IsSpace(five[0]);
    StripTrimmed(five);
    assert DigitRun(five) && RunValue(five) == 5;
  }

  /**
   * `int()` and `str.strip()` disagree on the information separators:
   * `"\x1c5".strip()` is `"5"`, but `int("\x1c5")` raises.
   */
  lemma SeparatorBefore()
    ensures Strip("\U{1C}5") == "5" && ParseInt("\U{1C}5").None?
  {
    var fs := "\U{1C}";
    assert AllSpace(fs) && InfoSeparator(fs[0]) && !SeparatorIn([]);
    assert fs + "5" + [] == "\U{1C}5";
    ParseFive();
    StripPadded(fs, "5", []);
    ParsePadded(fs, "5", []);
  }

  /** `"5\x1f".strip()` is `"5"`, but `int("5\x1f")` raises. */
  lemma SeparatorAfter()
    ensures Strip("5\U{1F}") == "5" && ParseInt("5\U{1F}").None?
  {
    var us := "\U{1F}";
    assert AllSpace(us) && InfoSeparator(us[0]);
    assert [] + "5" + us == "5\U{1F}";
    ParseFive();
    StripPadded([], "5", us);
    ParsePadded([], "5", us);
  }

  /** Other whitespace, such as a no-break space, is skipped: `int("\xa05") == 5`. */
  lemma NoBreakSpaceBefore()
    ensures ParseInt("\U{A0}5") == Some(5)
  {
    var nbsp := "\U{A0}";
    assert AllSpace(nbsp) && !InfoSeparator(nbsp[0]) && !SeparatorIn([]);
    assert !SeparatorIn(nbsp);
    assert nbsp + "5" + [] == "\U{A0}5";
    ParseFive();
    ParsePadded(nbsp, "5", []);
  }

  /** Text that starts with neither a digit nor a sign is not a number. */
  lemma ParseNonNumeric(t: string)
    requires t != [] && Trimmed(t) && !IsDigit(t[0]) && t[0] != '+' && t[0] != '-'
    ensures ParseInt(t).None?
  {
    ParseTrimmed(t);
  }

  lemma {:induction false} NatTextDigits(n: nat)
    ensures |NatText(n)| > 0
    ensures forall i :: 0 <= i < |NatText(n)| ==> IsDigit(NatText(n)[i])
    ensures DigitRun(NatText(n))
    ensures RunValue(NatText(n)) == n
    decreases n
  {
    if n >= 10 {
      NatTextDigits(n / 10);
      var t := NatText(n);
      assert t[..|t| - 1] == NatText(n / 10);
    }
  }

  /** The digits of a natural number are trimmed and start with a digit. */
  lemma NatTextTrimmed(m: nat)
    ensures var d := NatText(m); d != [] && Trimmed(d) && IsDigit(d[0]) && IsDigit(d[|d| - 1])
  {
    NatTextDigits(m);
  }

  /** `int(str(m)) == m` for a natural number. */
  lemma ParseNatText(m: nat)
    ensures ParseInt(IntText(m)) == Some(m as int)
  {
    assert IntText(m) == NatText(m);
    NatTextDigits(m);
    NatTextTrimmed(m);
    ParseTrimmed(NatText(m));
  }

  /** `int(str(-m)) == -m` for a positive number. */
  lemma ParseNegativeText(m: nat)
    requires m > 0
    ensures ParseInt(IntText(-(m as int))) == Some(-(m as int))
  {
    var d := NatText(m);
    var t := "-" + d;
    assert IntText(-(m as int)) == t;
    NatTextDigits(m);
    NatTextTrimmed(m);
    assert t[0] == '-' && t[1..] == d;
    assert t[|t| - 1] == d[|d| - 1];
    assert DigitRun(t[1..]) && RunValue(t[1..]) == m;
    assert ParseSigned(t) == Some(-(m as int));
    ParseTrimmed(t);
  }

  /** `int(str(n)) == n` for every integer (with no limit on the number of digits). */
  lemma ParseIntText(n: int)
    ensures ParseInt(IntText(n)) == Some(n)
  {
    if n < 0 {
      var m: nat := -n;
      ParseNegativeText(m);
      assert -(m as int) == n;
    } else {
      ParseNatText(n);
    }
  }

  /** `str(n)` is never blank and never the text `"None"`. */
  lemma IntTextShape(n: int)
    ensures Strip(IntText(n)) == IntText(n) != []
    ensures IntText(n) != "None"
  {
    var t := IntText(n);
    assert !IsSpace(t[0]) && !IsSpace(t[|t| - 1]);
    StripTrimmed(t);
    assert t[0] != 'N';
  }
}
