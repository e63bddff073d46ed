/** `flexidate`: reads a date written as yyyy/mm/dd, mm/dd/yyyy or mm/dd,
    where every separator is any single non-digit character. The two regular
    expressions it applies with `re.match` (anchored at the start only) are
    written out as recognisers that try the `\d{1,2}` group lengths in the
    order Python's backtracking engine does: the greedy length 2 before 1,
    the later group varying first. */
module DateParser {
  import opened Wrappers
  import opened Text
  import opened Calendar

  /** `ValueError("Invalid date format. ...")`. */
  datatype ParseError = InvalidDateFormat

  /** `\d{l}` followed by `\D` at the start of t. */
  predicate NumberThen(t: string, l: nat)
  {
    l < |t| && AllDigits(t[..l]) && !IsDigit(t[l])
  }

  /** `\d{l}` at the start of t. */
  predicate NumberAt(t: string, l: nat)
  {
    l <= |t| && AllDigits(t[..l])
  }

  /** `(\d{4})\D(\d{l2})\D(\d{l3})` matches a prefix of s. */
  predicate FitsYmd(s: string, l2: nat, l3: nat)
  {
    NumberThen(s, 4) && NumberThen(s[5..], l2) && NumberAt(s[5..][l2 + 1..], l3)
  }

  /** The three groups, read as numbers: four digits are below 10000 and
      at most two below 100. */
  function GroupsYmd(s: string, l2: nat, l3: nat): (d: Date)
    requires FitsYmd(s, l2, l3)
    ensures d.year < 10000 && (l2 <= 2 ==> d.month < 100) && (l3 <= 2 ==> d.day < 100)
  {
    var t := s[5..];
    var u := t[l2 + 1..];
    DigitsValueBelow(s[..4]);
    DigitsValueBelow(t[..l2]);
    DigitsValueBelow(u[..l3]);
    Date(DigitsValue(s[..4]), DigitsValue(t[..l2]), DigitsValue(u[..l3]))
  }

  /** `re.match(r"(\d{4})\D(\d{1,2})\D(\d{1,2})", s)`, as (year, month, day):
      it matches exactly when some choice of group lengths fits, and then
      `s` starts with a digit. */
  function MatchYmd(s: string): (r: Option<Date>)
    ensures r.Some? <==> exists l2, l3 :: 1 <= l2 <= 2 && 1 <= l3 <= 2 && FitsYmd(s, l2, l3)
    ensures r.Some? ==> IsDigit(s[0]) && r.value.year < 10000 && r.value.month < 100 && r.value.day < 100
  {
    assert FitsYmd(s, 1, 1) ==> s[..4][0] == s[0];
    if FitsYmd(s, 2, 2) then Some(GroupsYmd(s, 2, 2))
    else if FitsYmd(s, 2, 1) then Some(GroupsYmd(s, 2, 1))
    else if FitsYmd(s, 1, 2) then Some(GroupsYmd(s, 1, 2))
    else if FitsYmd(s, 1, 1) then Some(GroupsYmd(s, 1, 1))
    else None
  }

  /** `(\d{l1})\D(\d{l2})\D(\d{4})` matches a prefix of s. */
  predicate FitsMdy(s: string, l1: nat, l2: nat)
  {
    NumberThen(s, l1) && NumberThen(s[l1 + 1..], l2) && NumberAt(s[l1 + 1..][l2 + 1..], 4)
  }

  /** The groups bound as month, day and year, returned as (year, month, day). */
  function GroupsMdy(s: string, l1: nat, l2: nat): (d: Date)
    requires FitsMdy(s, l1, l2)
    ensures d.year < 10000 && (l1 <= 2 ==> d.month < 100) && (l2 <= 2 ==> d.day < 100)
  {
    var t := s[l1 + 1..];
    var u := t[l2 + 1..];
    DigitsValueBelow(u[..4]);
    DigitsValueBelow(s[..l1]);
    DigitsValueBelow(t[..l2]);
    Date(DigitsValue(u[..4]), DigitsValue(s[..l1]), DigitsValue(t[..l2]))
  }

  /** `re.match(r"(\d{1,2})\D(\d{1,2})\D(\d{4})", s)`: it matches exactly
      when some choice of group lengths fits, and then `s` starts with a
      digit. */
  function MatchMdy(s: string): (r: Option<Date>)
    ensures r.Some? <==> exists l1, l2 :: 1 <= l1 <= 2 && 1 <= l2 <= 2 && FitsMdy(s, l1, l2)
    ensures r.Some? ==> IsDigit(s[0]) && r.value.year < 10000 && r.value.month < 100 && r.value.day < 100
  {
    assert FitsMdy(s, 1, 1) ==> s[..1][0] == s[0];
    assert FitsMdy(s, 1, 2) ==> s[..1][0] == s[0];
    assert FitsMdy(s, 2, 1) ==> s[..2][0] == s[0];
    assert FitsMdy(s, 2, 2) ==> s[..2][0] == s[0];
    if FitsMdy(s, 2, 2) then Some(GroupsMdy(s, 2, 2))
    else if FitsMdy(s, 2, 1) then Some(GroupsMdy(s, 2, 1))
    else if FitsMdy(s, 1, 2) then Some(GroupsMdy(s, 1, 2))
    else if FitsMdy(s, 1, 1) then Some(GroupsMdy(s, 1, 1))
    else None
  }

  /** `flexidate(value)`, with the year of `datetime.date.today()` passed in.
      A two-part date gets "/" and the current year appended, so that the
      month/day/year pattern can read it. The triple is not range-checked. */
  function Flexidate(value: string, currentYear: nat): (r: Result<Date, ParseError>)
    ensures r.Success? ==> |value| >= 3 && IsDigit(value[0])
    ensures r.Success? ==> r.value.year < 10000 && r.value.month < 100 && r.value.day < 100
  {
    if |value| < 3 then Failure(InvalidDateFormat)
    else match MatchYmd(value)
      case Some(d) => Success(d)
      case None =>
        match MatchMdy(value + "/" + NatToString(currentYear))
        case Some(d) => Success(d)
        case None => Failure(InvalidDateFormat)
  }

  lemma {:induction false} FlexidateTooShort(value: string, currentYear: nat)
    requires |value| < 3
    ensures Flexidate(value, currentYear) == Failure(InvalidDateFormat)
  {
  }

  /** A run of one or two digits, as a `\d{1,2}` group reads it. */
  predicate ShortNumber(s: string)
  {
    1 <= |s| <= 2 && AllDigits(s)
  }

  predicate YearNumber(s: string)
  {
    |s| == 4 && AllDigits(s)
  }

  /** yyyy/mm/dd: the leading four digits are the year; any characters after
      the day are ignored, and after a one-digit day they must not extend
      its digit run (a two-digit day ends the group whatever follows). */
  lemma {:induction false} FlexidateYearFirst(ys: string, a: char, ms: string, b: char, ds: string, rest: string, currentYear: nat)
    requires YearNumber(ys) && ShortNumber(ms) && ShortNumber(ds) && !IsDigit(a) && !IsDigit(b)
    requires |ds| == 2 || rest == [] || !IsDigit(rest[0])
    ensures Flexidate(ys + [a] + ms + [b] + ds + rest, currentYear)
         == Success(Date(DigitsValue(ys), DigitsValue(ms), DigitsValue(ds)))
  {
    YearMonthDayFits(ys, a, ms, b, ds, rest);
  }

  /** A digit run of length l (then a non-digit) is read as exactly that. */
  lemma {:induction false} NumberThenOf(ds: string, b: char, rest: string)
    requires AllDigits(ds) && !IsDigit(b)
    ensures NumberThen(ds + [b] + rest, |ds|)
    ensures (ds + [b] + rest)[..|ds|] == ds
    ensures (ds + [b] + rest)[|ds| + 1..] == rest
  {
    var s := ds + [b] + rest;
    assert s[..|ds|] == ds;
    assert s[|ds|] == b;
    assert s[|ds| + 1..] == rest;
  }

  /** A run of exactly one digit is not a run of two. */
  lemma {:induction false} NotTwoDigits(ds: string, rest: string)
    requires |ds| == 1 && (rest == [] || !IsDigit(rest[0]))
    ensures !NumberAt(ds + rest, 2) && !NumberThen(ds + rest, 2)
  {
    if 2 <= |ds + rest| {
      assert (ds + rest)[..2][1] == rest[0];
    }
  }

  lemma {:induction false} YearMonthDayFits(ys: string, a: char, ms: string, b: char, ds: string, rest: string)
    requires YearNumber(ys) && ShortNumber(ms) && ShortNumber(ds) && !IsDigit(a) && !IsDigit(b)
    requires |ds| == 2 || rest == [] || !IsDigit(rest[0])
    ensures MatchYmd(ys + [a] + ms + [b] + ds + rest) == Some(Date(DigitsValue(ys), DigitsValue(ms), DigitsValue(ds)))
  {
    var u := ds + rest;
    var t := ms + [b] + u;
    var s := ys + [a] + t;
    assert s == ys + [a] + ms + [b] + ds + rest;
    NumberThenOf(ys, a, t);
    NumberThenOf(ms, b, u);
    assert u[..|ds|] == ds;
    assert FitsYmd(s, |ms|, |ds|);
    if |ms| == 1 {
      NotTwoDigits(ms, [b] + u);
      assert !FitsYmd(s, 2, 2) && !FitsYmd(s, 2, 1);
    }
    if |ds| == 1 {
      NotTwoDigits(ds, rest);
      assert !FitsYmd(s, |ms|, 2);
    }
  }

  /** mm/dd/yyyy: anything after the four year digits is ignored. */
  lemma {:induction false} FlexidateYearLast(ms: string, a: char, ds: string, b: char, ys: string, rest: string, currentYear: nat)
    requires ShortNumber(ms) && ShortNumber(ds) && YearNumber(ys) && !IsDigit(a) && !IsDigit(b)
    ensures Flexidate(ms + [a] + ds + [b] + ys + rest, currentYear)
         == Success(Date(DigitsValue(ys), DigitsValue(ms), DigitsValue(ds)))
  {
    var value := ms + [a] + ds + [b] + ys + rest;
    NoYearFirst(value, |ms|);
    var s := value + "/" + NatToString(currentYear);
    assert s == ms + [a] + ds + [b] + ys + (rest + "/" + NatToString(currentYear));
    MonthDayYearFits(ms, a, ds, b, ys, rest + "/" + NatToString(currentYear));
  }

  /** mm/dd: the year is the current one (a four-digit year). */
  lemma {:induction false} FlexidateMonthDay(ms: string, a: char, ds: string, currentYear: nat)
    requires ShortNumber(ms) && ShortNumber(ds) && !IsDigit(a)
    requires 1000 <= currentYear <= 9999
    ensures Flexidate(ms + [a] + ds, currentYear)
         == Success(Date(currentYear, DigitsValue(ms), DigitsValue(ds)))
  {
    var value := ms + [a] + ds;
    NoYearFirst(value, |ms|);
    NatToStringValue(currentYear);
    var ys := NatToString(currentYear);
    assert value + "/" + ys == ms + [a] + ds + ['/'] + ys + [];
    MonthDayYearFits(ms, a, ds, '/', ys, []);
  }

  /** Text that starts with a non-digit matches neither pattern. */
  lemma {:induction false} FlexidateNonDigitStart(value: string, currentYear: nat)
    requires |value| >= 3 && !IsDigit(value[0])
    ensures Flexidate(value, currentYear) == Failure(InvalidDateFormat)
  {
    NoYearFirst(value, 0);
    var s := value + "/" + NatToString(currentYear);
    assert s[0] == value[0];
    assert !NumberThen(s, 1) && !NumberThen(s, 2) by {
      assert s[..1][0] == s[0];
      if 2 < |s| {
        assert s[..2][0] == s[0];
      }
    }
  }

  /** A non-digit within the first four characters rules out yyyy/mm/dd. */
  lemma {:induction false} NoYearFirst(value: string, k: nat)
    requires k < 4 && k < |value| && !IsDigit(value[k])
    ensures MatchYmd(value) == None
  {
    assert !NumberThen(value, 4) by {
      if 4 < |value| {
        assert value[..4][k] == value[k];
      }
    }
  }

  lemma {:induction false} MonthDayYearFits(ms: string, a: char, ds: string, b: char, ys: string, rest: string)
    requires ShortNumber(ms) && ShortNumber(ds) && YearNumber(ys) && !IsDigit(a) && !IsDigit(b)
    ensures MatchMdy(ms + [a] + ds + [b] + ys + rest) == Some(Date(DigitsValue(ys), DigitsValue(ms), DigitsValue(ds)))
  {
    var u := ys + rest;
    var t := ds + [b] + u;
    var s := ms + [a] + t;
    assert s == ms + [a] + ds + [b] + ys + rest;
    NumberThenOf(ms, a, t);
    NumberThenOf(ds, b, u);
    assert u[..4] == ys;
    assert FitsMdy(s, |ms|, |ds|);
    assert GroupsMdy(s, |ms|, |ds|) == Date(DigitsValue(ys), DigitsValue(ms), DigitsValue(ds));
    if |ms| == 1 {
      NotTwoDigits(ms, [a] + t);
      assert !FitsMdy(s, 2, 2) && !FitsMdy(s, 2, 1);
    }
    if |ds| == 1 {
      NotTwoDigits(ds, [b] + u);
      assert !FitsMdy(s, |ms|, 2);
    }
    MatchMdyPicks(s, |ms|, |ds|);
  }

  /** The engine settles on the first group lengths, in its order, that fit. */
  lemma {:induction false} MatchMdyPicks(s: string, l1: nat, l2: nat)
    requires 1 <= l1 <= 2 && 1 <= l2 <= 2 && FitsMdy(s, l1, l2)
    requires l1 == 1 ==> !FitsMdy(s, 2, 2) && !FitsMdy(s, 2, 1)
    requires l2 == 1 ==> !FitsMdy(s, l1, 2)
    ensures MatchMdy(s) == Some(GroupsMdy(s, l1, l2))
  {
  }

  lemma {:induction false} DigitsValueSmall(s: string)
    requires ShortNumber(s)
    ensures DigitsValue(s) == if |s| == 1 then DigitValue(s[0]) else 10 * DigitValue(s[0]) + DigitValue(s[1])
  {
    if |s| == 2 {
      assert s[..2] == s && s[..1][..0] == [];
      assert DigitsValue(s[..1]) == DigitValue(s[0]);
      assert DigitsValue(s) == 10 * DigitsValue(s[..1]) + DigitValue(s[1]);
    } else {
      assert s[..0] == [];
    }
  }

  lemma {:induction false} DigitsValueYear(s: string)
    requires YearNumber(s)
    ensures DigitsValue(s) == 1000 * DigitValue(s[0]) + 100 * DigitValue(s[1]) + 10 * DigitValue(s[2]) + DigitValue(s[3])
  {
    assert s[..4] == s;
    assert s[..3][..2] == s[..2] && s[..2][..1] == s[..1] && s[..1][..0] == [];
    assert DigitsValue(s[..1]) == DigitValue(s[0]);
    assert DigitsValue(s[..2]) == 10 * DigitsValue(s[..1]) + DigitValue(s[1]);
    assert DigitsValue(s[..3]) == 10 * DigitsValue(s[..2]) + DigitValue(s[2]);
    assert DigitsValue(s) == 10 * DigitsValue(s[..3]) + DigitValue(s[3]);
  }

  /** The documented examples for the year 2025: "3/4", "2025/03/04" and
      "03/04/2025" all read as 2025-03-04. */
  lemma {:induction false} FlexidateExampleMonthDay()
    ensures Flexidate("3/4", 2025) == Success(Date(2025, 3, 4))
  {
    DigitsValueSmall("3");
    DigitsValueSmall("4");
    assert "3/4" == "3" + ['/'] + "4";
    FlexidateMonthDay("3", '/', "4", 2025);
  }

  lemma {:induction false} FlexidateExampleYearFirst()
    ensures Flexidate("2025/03/04", 2025) == Success(Date(2025, 3, 4))
  {
    DigitsValueSmall("03");
    DigitsValueSmall("04");
    DigitsValueYear("2025");
    assert "2025/03/04" == "2025" + ['/'] + "03" + ['/'] + "04" + [];
    FlexidateYearFirst("2025", '/', "03", '/', "04", [], 2025);
  }

  lemma {:induction false} FlexidateExampleYearLast()
    ensures Flexidate("03/04/2025", 2025) == Success(Date(2025, 3, 4))
  {
    DigitsValueSmall("03");
    DigitsValueSmall("04");
    DigitsValueYear("2025");
    assert "03/04/2025" == "03" + ['/'] + "04" + ['/'] + "2025" + [];
    FlexidateYearLast("03", '/', "04", '/', "2025", [], 2025);
  }

  lemma {:induction false} FlexidateExampleWord()
    ensures Flexidate("March 4", 2025) == Failure(InvalidDateFormat)
  {
    FlexidateNonDigitStart("March 4", 2025);
  }

  /** Month and day are not range-checked: that is left to date construction. */
  lemma {:induction false} FlexidateNoRangeCheck()
    ensures Flexidate("13/45/2024", 2025) == Success(Date(2024, 13, 45))
  {
    DigitsValueSmall("13");
    DigitsValueSmall("45");
    DigitsValueYear("2024");
    assert "13/45/2024" == "13" + ['/'] + "45" + ['/'] + "2024" + [];
    FlexidateYearLast("13", '/', "45", '/', "2024", [], 2025);
  }
}
