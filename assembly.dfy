/** The body of `main`: `get_classes`, zipping the titles with the date
    generator, and the tab-delimited rendering that is printed. */
module Assembly {
  import opened Wrappers
  import opened Text
  import opened Calendar
  import opened Generator
  import opened Weekdays
  import DateParser

  predicate TabFree(s: string) { '\t' !in s }

  /** The lines of the triple-quoted block in `get_classes`, without
      their two-space indent, grouped by course unit. */
  const ClassTitles: seq<string> :=
    Fundamentals + FrontEnd + JavaScript + BackEnd + Closing

  const Fundamentals: seq<string> :=
    ["Primer 1", "Primer 2", "Primer 3", "Primer 4", "Graphics 1", "Graphics 2", "HTML 1", "HTML 2"]
  const FrontEnd: seq<string> :=
    ["CSS 1", "CSS 2", "CSS 3", "CSS 4", "Bootstrap 1", "Bootstrap 2"]
  const JavaScript: seq<string> :=
    ["JavaScript 1", "JavaScript 2", "JavaScript 3", "JavaScript 4",
     "JavaScript 5", "JavaScript 6", "JavaScript 7", "JavaScript 8"]
  const BackEnd: seq<string> :=
    ["MySQL 1", "MySQL 2", "PHP 1", "PHP 2", "PHP 3", "PHP 4", "Capstone 1", "PHP 5", "PHP 6"]
  const Closing: seq<string> :=
    ["Linux/Unix 1", "Linux/Unix 2", "Capstone 2", "Capstone 3", "Graduation"]

  /** `get_classes()`: every line of the block carries a two-space indent,
      and `.strip()` removes only the first one (with the leading newline and
      the trailing indent), so every title after the first keeps its two
      leading spaces. */
  function GetClasses(): (classes: seq<string>)
    ensures |classes| == |ClassTitles|
    ensures classes[0] == ClassTitles[0]
    ensures forall i :: 1 <= i < |classes| ==> classes[i] == "  " + ClassTitles[i]
  {
    StripBlock(ClassTitles)
  }

  /** The stripped block: the first line loses its indent, the others
      keep it. */
  function StripBlock(lines: seq<string>): (r: seq<string>)
    requires |lines| >= 1
    ensures |r| == |lines| && r[0] == lines[0]
    ensures forall i :: 1 <= i < |lines| ==> r[i] == "  " + lines[i]
  {
    [lines[0]] + Indented(lines[1..])
  }

  /** Each line with the block's two-space indent kept. */
  function Indented(lines: seq<string>): (r: seq<string>)
    ensures |r| == |lines|
    ensures forall i :: 0 <= i < |lines| ==> r[i] == "  " + lines[i]
  {
    if lines == [] then [] else ["  " + lines[0]] + Indented(lines[1..])
  }

  /** The course has 36 sessions, from "Primer 1" to an indented
      "Graduation". */
  lemma {:induction false} ClassListEnds()
    ensures |GetClasses()| == 36
    ensures GetClasses()[0] == "Primer 1" && GetClasses()[35] == "  Graduation"
  {
    var rest := FrontEnd + JavaScript + BackEnd + Closing;
    assert |Fundamentals| == 8 && |FrontEnd| == 6 && |JavaScript| == 8;
    assert |BackEnd| == 9 && |Closing| == 5;
    assert ClassTitles == Fundamentals + rest;
    assert ClassTitles[0] == Fundamentals[0] == "Primer 1";
    assert rest == (FrontEnd + JavaScript + BackEnd) + Closing;
    assert ClassTitles[35] == rest[27] == Closing[4] == "Graduation";
    assert GetClasses()[35] == "  " + "Graduation";
  }

  /** One `(title, date)` pair of `schedule`. */
  datatype Entry = Entry(title: string, date: Date)

  /** `zip(titles, generator)` once the generator has yielded `d`: each
      title is paired with the next date, and the generator is advanced
      exactly once per title. */
  function ZipDates(titles: seq<string>, d: Date, days: seq<int>, excl: Option<seq<Date>>): (r: seq<Entry>)
    requires ValidDate(d) && HasClassDay(days)
    ensures |r| == |titles|
    decreases |titles|
  {
    if titles == [] then []
    else [Entry(titles[0], d)] + ZipDates(titles[1..], NextAfter(d, days, excl), days, excl)
  }

  lemma {:induction false} ZipDatesNth(titles: seq<string>, d: Date, days: seq<int>, excl: Option<seq<Date>>, i: nat)
    requires ValidDate(d) && HasClassDay(days) && i < |titles|
    ensures ZipDates(titles, d, days, excl)[i] == Entry(titles[i], Nth(d, days, excl, i))
    decreases i
  {
    if i == 0 {
      NthFirstIsStart(d, days, excl);
    } else {
      var next := NextAfter(d, days, excl);
      calc {
        ZipDates(titles, d, days, excl)[i];
      == { ZipDatesTail(titles, d, days, excl, i); }
        ZipDates(titles[1..], next, days, excl)[i - 1];
      == { ZipDatesNth(titles[1..], next, days, excl, i - 1); }
        Entry(titles[1..][i - 1], Nth(next, days, excl, i - 1));
      == { NthShift(d, days, excl, i - 1); }
        Entry(titles[i], Nth(d, days, excl, i));
      }
    }
  }

  /** Each title keeps its place. */
  lemma {:induction false} ZipDatesTitles(titles: seq<string>, d: Date, days: seq<int>, excl: Option<seq<Date>>)
    requires ValidDate(d) && HasClassDay(days)
    ensures forall i :: 0 <= i < |titles| ==> ZipDates(titles, d, days, excl)[i].title == titles[i]
    decreases |titles|
  {
    if titles != [] {
      ZipDatesTitles(titles[1..], NextAfter(d, days, excl), days, excl);
    }
  }

  lemma {:induction false} ZipDatesTail(titles: seq<string>, d: Date, days: seq<int>, excl: Option<seq<Date>>, i: nat)
    requires ValidDate(d) && HasClassDay(days) && 0 < i < |titles|
    ensures ZipDates(titles, d, days, excl)[i]
      == ZipDates(titles[1..], NextAfter(d, days, excl), days, excl)[i - 1]
  {
  }

  lemma {:induction false} ZipDatesAll(titles: seq<string>, d: Date, days: seq<int>, excl: Option<seq<Date>>, entries: seq<Entry>)
    requires ValidDate(d) && HasClassDay(days) && |entries| == |titles|
    requires forall k :: 0 <= k < |titles| ==> entries[k] == Entry(titles[k], Nth(d, days, excl, k))
    ensures entries == ZipDates(titles, d, days, excl)
  {
    forall k | 0 <= k < |titles|
      ensures entries[k] == ZipDates(titles, d, days, excl)[k]
    {
      ZipDatesNth(titles, d, days, excl, k);
    }
  }

  /** `list(zip(classes, next_available_date(start, days, excl)))`. With
      no titles the generator is never started, so even an invalid start
      date raises nothing; otherwise `datetime.date(*start)` raises first. */
  function Assemble(classes: seq<string>, start: Date, days: seq<int>, excl: Option<seq<Date>>): (r: Result<seq<Entry>, GenError>)
    requires HasClassDay(days)
    ensures r.Failure? <==> classes != [] && !(ValidDate(start) && start.year <= MaxYear)
    ensures r.Success? ==> |r.value| == |classes| && forall i :: 0 <= i < |classes| ==> r.value[i].title == classes[i]
  {
    if classes == [] then Success([])
    else
      match MakeDate(start.year, start.month, start.day)
      case Failure(e) => Failure(InvalidStart(e))
      case Success(d) =>
        ZipDatesTitles(classes, d, days, excl);
        Success(ZipDates(classes, d, days, excl))
  }

  /** What the schedule promises: one entry per title, in order; the first
      on the start date; later ones on strictly later dates, each on a class
      day and not unavailable; and no usable day between two entries. */
  lemma {:induction false} ScheduleDates(classes: seq<string>, start: Date, days: seq<int>, excl: Option<seq<Date>>)
    requires HasClassDay(days) && Assemble(classes, start, days, excl).Success?
    ensures var entries := Assemble(classes, start, days, excl).value;
      && |entries| == |classes|
      && (forall i :: 0 <= i < |entries| ==> entries[i].title == classes[i])
      && (|entries| > 0 ==> entries[0].date == start)
      && (forall i :: 0 <= i < |entries| ==> ValidDate(entries[i].date))
      && (forall i :: 0 < i < |entries| ==>
            Weekday(entries[i].date) in days && !Unavailable(entries[i].date, excl))
      && (forall i, j :: 0 <= i < j < |entries| ==> Less(entries[i].date, entries[j].date))
      && (forall i, x :: (0 <= i < |entries| - 1 && ValidDate(x)
            && Less(entries[i].date, x) && Less(x, entries[i + 1].date)) ==> !Eligible(x, days, excl))
  {
    var entries := Assemble(classes, start, days, excl).value;
    if classes != [] {
      assert ValidDate(start);
      forall i | 0 <= i < |entries|
        ensures entries[i] == Entry(classes[i], Nth(start, days, excl, i))
      {
        ZipDatesNth(classes, start, days, excl, i);
      }
      NthFirstIsStart(start, days, excl);
      forall i | 0 < i < |entries|
        ensures Weekday(entries[i].date) in days && !Unavailable(entries[i].date, excl)
      {
        NthEligible(start, days, excl, i);
      }
      forall i, j | 0 <= i < j < |entries|
        ensures Less(entries[i].date, entries[j].date)
      {
        NthIncreasing(start, days, excl, i, j);
      }
      forall i, x | 0 <= i < |entries| - 1 && ValidDate(x)
          && Less(entries[i].date, x) && Less(x, entries[i + 1].date)
        ensures !Eligible(x, days, excl)
      {
        NthNoneSkipped(start, days, excl, i, x);
      }
    }
  }

  /** The loop inside `list(zip(...))`, driving a generator object. */
  method Zip(classes: seq<string>, g: DateGenerator) returns (r: Result<seq<Entry>, GenError>)
    requires g.Valid() && !g.started && !g.closed
    modifies g
    ensures r == Assemble(classes, g.start, g.days, g.excl)
    ensures classes == [] ==> !g.started && !g.closed && g.produced == 0
    ensures classes != [] && r.Success? ==> g.Valid() && g.started && g.produced == |classes|
    ensures r.Failure? ==> g.closed
  {
    ghost var start, days, excl := g.start, g.days, g.excl;
    if classes == [] {
      return Success([]);
    }
    // The first pull builds the start date and may raise.
    var first := g.Next();
    if first.Failure? {
      return Failure(first.error);
    }
    var entries := [Entry(classes[0], first.value)];
    var i := 1;
    while i < |classes|
      invariant 1 <= i <= |classes| && |entries| == i
      invariant g.Valid() && g.started && g.produced == i
      invariant ValidDate(start) && MakeDate(start.year, start.month, start.day).Success?
      invariant forall k :: 0 <= k < i ==> entries[k] == Entry(classes[k], Nth(start, days, excl, k))
    {
      var d := g.Next();
      var e := Entry(classes[i], d.value);
      ghost var prev := entries;
      entries := entries + [e];
      forall k | 0 <= k <= i
        ensures entries[k] == Entry(classes[k], Nth(start, days, excl, k))
      {
        if k < i {
          assert entries[k] == prev[k];
        }
      }
      i := i + 1;
    }
    ZipDatesAll(classes, start, days, excl, entries);
    r := Success(entries);
  }

  /** `'%s-%s-%s\t%s' % (d.year, d.month, d.day, t)`: unpadded numbers
      joined by hyphens, a tab, then the title. */
  function FormatEntry(e: Entry): (r: string)
    ensures |r| > |e.title| && r[|r| - |e.title| - 1] == '\t' && r[|r| - |e.title|..] == e.title
  {
    IntToString(e.date.year) + "-" + IntToString(e.date.month) + "-" + IntToString(e.date.day)
      + "\t" + e.title
  }

  function FormatAll(entries: seq<Entry>): (r: seq<string>)
    ensures |r| == |entries| && forall i :: 0 <= i < |entries| ==> r[i] == FormatEntry(entries[i])
  {
    if entries == [] then [] else [FormatEntry(entries[0])] + FormatAll(entries[1..])
  }

  /** `'\t\t'.join(...)`: the printed line. */
  function FormatSchedule(entries: seq<Entry>): string
  {
    Join(FormatAll(entries), "\t\t")
  }

  /** Lines 158-160 together: the printed text, or the error raised. */
  function Schedule(classes: seq<string>, start: Date, days: seq<int>, excl: Option<seq<Date>>): (r: Result<string, GenError>)
    requires HasClassDay(days)
    ensures r.Failure? <==> classes != [] && !(ValidDate(start) && start.year <= MaxYear)
    ensures classes == [] ==> r == Success("")
  {
    match Assemble(classes, start, days, excl)
    case Failure(e) => Failure(e)
    case Success(entries) => Success(FormatSchedule(entries))
  }

  /** `main` after argument parsing: build the generator, zip, format. */
  method MakeSchedule(classes: seq<string>, start: Date, days: seq<int>, excl: Option<seq<Date>>)
      returns (r: Result<string, GenError>)
    requires HasClassDay(days)
    ensures r == Schedule(classes, start, days, excl)
  {
    var g := new DateGenerator(start, days, excl);
    var entries := Zip(classes, g);
    match entries
    case Failure(e) => r := Failure(e);
    case Success(es) => r := Success(FormatSchedule(es));
  }

  /** A list accepted by `weekday_abbrev` always names a weekday, so the
      generator's skip loop always ends. */
  lemma {:induction false} ClassDaysReady(s: string, days: seq<int>)
    requires ClassDaySet(s).Success?
    requires forall w :: w in days <==> w in ClassDaySet(s).value
    ensures HasClassDay(days)
  {
    var tokens := Tokens(s);
    assert tokens[0] in tokens;
    var w := AbbrevIndex(tokens[0]).value;
    assert w in ClassDaySet(s).value;
    assert w in days && 0 <= w < 7;
  }

  /** No titles: nothing is printed but the empty line, whatever the start
      date. */
  lemma {:induction false} EmptyScheduleIsEmpty(start: Date, days: seq<int>, excl: Option<seq<Date>>)
    requires HasClassDay(days)
    ensures Schedule([], start, days, excl) == Success("")
  {
    assert Assemble([], start, days, excl) == Success([]);
    assert FormatAll([]) == [];
  }

  // Reading the printed line back: the rendering loses nothing for titles
  // without tabs.

  function ParseEntry(s: string): Option<Entry>
  {
    var fields := SplitOn(s, "\t");
    if |fields| != 2 then None
    else
      var ymd := SplitOn(fields[0], "-");
      if |ymd| == 3 && AllDigits(ymd[0]) && AllDigits(ymd[1]) && AllDigits(ymd[2]) then
        Some(Entry(fields[1], Date(DigitsValue(ymd[0]), DigitsValue(ymd[1]), DigitsValue(ymd[2]))))
      else None
  }

  function ParseAll(lines: seq<string>): Option<seq<Entry>>
  {
    if lines == [] then Some([])
    else
      var first, rest := ParseEntry(lines[0]), ParseAll(lines[1..]);
      if first.Some? && rest.Some? then Some([first.value] + rest.value) else None
  }

  function ParseSchedule(s: string): Option<seq<Entry>>
  {
    if s == "" then Some([]) else ParseAll(SplitOn(s, "\t\t"))
  }

  predicate Printable(e: Entry)
  {
    ValidDate(e.date) && e.title != "" && TabFree(e.title)
  }

  function DatePart(d: Date): string
    requires ValidDate(d)
  {
    NatToString(d.year) + "-" + NatToString(d.month) + "-" + NatToString(d.day)
  }

  /** A printed date with a four-digit year reads back through the date
      parser as the same date: the year-first pattern takes it whole. */
  lemma {:induction false} FlexidateReadsDatePart(d: Date, currentYear: nat)
    requires ValidDate(d) && 1000 <= d.year <= 9999
    ensures DateParser.Flexidate(DatePart(d), currentYear) == Success(d)
  {
    var y, m, dd := NatToString(d.year), NatToString(d.month), NatToString(d.day);
    NatToStringValue(d.year);
    NatToStringValue(d.month);
    NatToStringValue(d.day);
    assert DatePart(d) == y + ['-'] + m + ['-'] + dd + [];
    DateParser.FlexidateYearFirst(y, '-', m, '-', dd, [], currentYear);
  }

  /** `'%s'` does not pad the year, so a date before year 1000 prints with
      fewer than four year digits and no longer reads back. */
  lemma {:induction false} FlexidateRejectsShortYear()
    ensures DatePart(Date(999, 1, 1)) == "999-1-1"
    ensures DateParser.Flexidate("999-1-1", 2025) == Failure(DateParser.InvalidDateFormat)
  {
    NatToStringValue(999);
    NatToStringValue(1);
    assert NatToString(999) == "999" by {
      assert NatToString(9) == "9";
      assert NatToString(99) == NatToString(9) + "9";
    }
    var v := "999-1-1";
    var s := v + "/" + NatToString(2025);
    DateParser.NoYearFirst(v, 3);
    assert s[..1][0] == s[0] && s[1] == '9' && s[..2][1] == '9' && s[2] == '9';
    assert !DateParser.NumberThen(s, 1) && !DateParser.NumberThen(s, 2);
  }

  lemma {:induction false} FormatEntryParts(e: Entry)
    requires Printable(e)
    ensures FormatEntry(e) == DatePart(e.date) + "\t" + e.title
    ensures DatePart(e.date) == Join([NatToString(e.date.year), NatToString(e.date.month), NatToString(e.date.day)], "-")
    ensures TabFree(DatePart(e.date))
  {
    var y, m, d := NatToString(e.date.year), NatToString(e.date.month), NatToString(e.date.day);
    assert [y, m, d][1..] == [m, d] && [m, d][1..] == [d];
    assert Join([m, d], "-") == m + "-" + d;
    assert Join([y, m, d], "-") == y + "-" + (m + "-" + d);
    DigitsExclude(y, '\t');
    DigitsExclude(m, '\t');
    DigitsExclude(d, '\t');
    var dp := DatePart(e.date);
    forall k | 0 <= k < |dp|
      ensures dp[k] != '\t'
    {
      if k < |y| {
        assert dp[k] == y[k];
      } else if k == |y| {
      } else if k < |y| + 1 + |m| {
        assert dp[k] == m[k - |y| - 1];
      } else if k == |y| + 1 + |m| {
      } else {
        assert dp[k] == d[k - |y| - 2 - |m|];
      }
    }
  }

  lemma {:induction false} ParseFormatEntry(e: Entry)
    requires Printable(e)
    ensures ParseEntry(FormatEntry(e)) == Some(e)
  {
    var y, m, d := NatToString(e.date.year), NatToString(e.date.month), NatToString(e.date.day);
    FormatEntryParts(e);
    var dp := DatePart(e.date);
    SeparatesCleanlyChar(dp, '\t');
    SeparatesCleanlyChar(e.title, '\t');
    assert Join([dp, e.title], "\t") == FormatEntry(e);
    SplitJoin([dp, e.title], "\t");
    DigitsExclude(y, '-');
    DigitsExclude(m, '-');
    DigitsExclude(d, '-');
    SeparatesCleanlyChar(y, '-');
    SeparatesCleanlyChar(m, '-');
    SeparatesCleanlyChar(d, '-');
    SplitJoin([y, m, d], "-");
    NatToStringValue(e.date.year);
    NatToStringValue(e.date.month);
    NatToStringValue(e.date.day);
  }

  lemma {:induction false} FormatEntryClean(e: Entry)
    requires Printable(e)
    ensures SeparatesCleanly(FormatEntry(e), "\t\t")
  {
    FormatEntryParts(e);
    var dp := DatePart(e.date);
    var p := FormatEntry(e);
    assert p[|p| - 1] == e.title[|e.title| - 1];
    forall k | 0 <= k < |p| - 1
      ensures !(p[k] == '\t' && p[k + 1] == '\t')
    {
      if k < |dp| {
        assert p[k] == dp[k];
      } else if k == |dp| {
        assert p[k + 1] == e.title[0];
      } else {
        assert p[k] == e.title[k - |dp| - 1];
      }
    }
    SeparatesCleanlyPair(p, '\t');
  }

  lemma {:induction false} ParseAllCons(lines: seq<string>, e: Entry, es: seq<Entry>)
    requires |lines| > 0 && ParseEntry(lines[0]) == Some(e) && ParseAll(lines[1..]) == Some(es)
    ensures ParseAll(lines) == Some([e] + es)
  {
  }

  lemma {:induction false} ParseAllFormatAll(entries: seq<Entry>)
    requires forall e :: e in entries ==> Printable(e)
    ensures ParseAll(FormatAll(entries)) == Some(entries)
    decreases |entries|
  {
    if entries != [] {
      assert entries[0] in entries;
      var lines := FormatAll(entries);
      ParseFormatEntry(entries[0]);
      ParseAllFormatAll(entries[1..]);
      assert lines[1..] == FormatAll(entries[1..]);
      ParseAllCons(lines, entries[0], entries[1..]);
      assert entries == [entries[0]] + entries[1..];
    }
  }

  /** The printed line reads back as the schedule it was made from. */
  lemma {:induction false} ParseFormatSchedule(entries: seq<Entry>)
    requires forall e :: e in entries ==> Printable(e)
    ensures ParseSchedule(FormatSchedule(entries)) == Some(entries)
  {
    if entries != [] {
      var lines := FormatAll(entries);
      forall p | p in lines
        ensures SeparatesCleanly(p, "\t\t")
      {
        var i :| 0 <= i < |lines| && lines[i] == p;
        assert entries[i] in entries;
        FormatEntryClean(entries[i]);
      }
      SplitJoin(lines, "\t\t");
      assert entries[0] in entries;
      FormatEntryParts(entries[0]);
      assert |Join(lines, "\t\t")| >= |lines[0]| by {
        if |lines| > 1 {
          JoinCons(lines[0], lines[1..], "\t\t");
          assert [lines[0]] + lines[1..] == lines;
        }
      }
      ParseAllFormatAll(entries);
    }
  }
}

/** A worked schedule: Monday 2024-01-01, classes on Monday, Wednesday and
    Friday, with Friday 2024-01-05 unavailable. */
module ScheduleExamples {
  import opened Wrappers
  import opened Text
  import opened Calendar
  import opened Generator
  import opened Assembly

  const Start: Date := Date(2024, 1, 1)
  const MonWedFri: seq<int> := [0, 2, 4]
  const Holiday: Option<seq<Date>> := Some([Date(2024, 1, 5)])

  lemma {:induction false} FirstWeekOf2024()
    ensures Weekday(Date(2024, 1, 1)) == 0 && Weekday(Date(2024, 1, 2)) == 1
    ensures Weekday(Date(2024, 1, 3)) == 2 && Weekday(Date(2024, 1, 4)) == 3
    ensures Weekday(Date(2024, 1, 5)) == 4 && Weekday(Date(2024, 1, 6)) == 5
    ensures Weekday(Date(2024, 1, 7)) == 6 && Weekday(Date(2024, 1, 8)) == 0
  {
    assert DaysBeforeYear(2024) == 738885;
    assert Ordinal(Date(2024, 1, 1)) == 738886;
  }

  lemma {:induction false} SecondAndThirdClass()
    ensures 0 in MonWedFri && HasClassDay(MonWedFri)
    ensures Nth(Start, MonWedFri, Holiday, 1) == Date(2024, 1, 3)
    ensures Nth(Start, MonWedFri, Holiday, 2) == Date(2024, 1, 8)
  {
    assert 0 in MonWedFri;
    FirstWeekOf2024();
    assert Successor(Start) == Date(2024, 1, 2);
    assert Successor(Date(2024, 1, 2)) == Date(2024, 1, 3);
    assert SkipFrom(Date(2024, 1, 3), MonWedFri, Holiday) == Date(2024, 1, 3);
    assert SkipFrom(Date(2024, 1, 2), MonWedFri, Holiday) == Date(2024, 1, 3);
    assert Nth(Start, MonWedFri, Holiday, 1) == Date(2024, 1, 3);
    assert Successor(Date(2024, 1, 3)) == Date(2024, 1, 4);
    assert Successor(Date(2024, 1, 4)) == Date(2024, 1, 5);
    assert Successor(Date(2024, 1, 5)) == Date(2024, 1, 6);
    assert Successor(Date(2024, 1, 6)) == Date(2024, 1, 7);
    assert Successor(Date(2024, 1, 7)) == Date(2024, 1, 8);
    // Friday the 5th is a class weekday, but unavailable.
    assert Unavailable(Date(2024, 1, 5), Holiday);
    assert SkipFrom(Date(2024, 1, 8), MonWedFri, Holiday) == Date(2024, 1, 8);
    assert SkipFrom(Date(2024, 1, 7), MonWedFri, Holiday) == Date(2024, 1, 8);
    assert SkipFrom(Date(2024, 1, 6), MonWedFri, Holiday) == Date(2024, 1, 8);
    assert SkipFrom(Date(2024, 1, 5), MonWedFri, Holiday) == Date(2024, 1, 8);
    assert SkipFrom(Date(2024, 1, 4), MonWedFri, Holiday) == Date(2024, 1, 8);
  }

  const ThreeEntries: seq<Entry> :=
    [Entry("A", Date(2024, 1, 1)), Entry("B", Date(2024, 1, 3)), Entry("C", Date(2024, 1, 8))]

  /** Three titles get 2024-01-01, 2024-01-03 and 2024-01-08: the unavailable
      Friday is skipped. */
  lemma {:induction false} ThreeClassDates()
    ensures 0 in MonWedFri && HasClassDay(MonWedFri)
    ensures Assemble(["A", "B", "C"], Start, MonWedFri, Holiday) == Success(ThreeEntries)
  {
    SecondAndThirdClass();
    var titles := ["A", "B", "C"];
    assert MakeDate(2024, 1, 1) == Success(Start);
    NthFirstIsStart(Start, MonWedFri, Holiday);
    ZipDatesAll(titles, Start, MonWedFri, Holiday, ThreeEntries);
  }

  lemma {:induction false} YearText()
    ensures NatToString(2024) == "2024"
  {
    assert NatToString(2) == "2" && NatToString(20) == "20";
    assert NatToString(202) == "202";
  }

  lemma {:induction false} ThreeEntryTexts()
    ensures FormatAll(ThreeEntries) == ["2024-1-1\tA", "2024-1-3\tB", "2024-1-8\tC"]
  {
    YearText();
    assert IntToString(1) == "1" && IntToString(3) == "3" && IntToString(8) == "8";
    assert FormatEntry(ThreeEntries[0]) == "2024-1-1\tA";
    assert FormatEntry(ThreeEntries[1]) == "2024-1-3\tB";
    assert FormatEntry(ThreeEntries[2]) == "2024-1-8\tC";
  }

  /** Months and days print without zero padding, joined by hyphens. */
  lemma {:induction false} ThreeClassText()
    ensures FormatSchedule(ThreeEntries) == "2024-1-1\tA" + "\t\t" + "2024-1-3\tB" + "\t\t" + "2024-1-8\tC"
  {
    ThreeEntryTexts();
    var a, b, c := "2024-1-1\tA", "2024-1-3\tB", "2024-1-8\tC";
    assert [a, b, c][1..] == [b, c] && [b, c][1..] == [c];
  }

  lemma {:induction false} ThreeClassSchedule()
    ensures 0 in MonWedFri && HasClassDay(MonWedFri)
    ensures Schedule(["A", "B", "C"], Start, MonWedFri, Holiday)
      == Success("2024-1-1\tA" + "\t\t" + "2024-1-3\tB" + "\t\t" + "2024-1-8\tC")
  {
    ThreeClassDates();
    ThreeClassText();
  }

  const Thursdays: seq<int> := [3]

  lemma {:induction false} LateFebruary2024()
    ensures Weekday(Date(2024, 2, 28)) == 2 && Weekday(Date(2024, 2, 29)) == 3
    ensures Weekday(Date(2024, 3, 1)) == 4 && Weekday(Date(2024, 3, 2)) == 5
    ensures Weekday(Date(2024, 3, 3)) == 6 && Weekday(Date(2024, 3, 4)) == 0
    ensures Weekday(Date(2024, 3, 5)) == 1 && Weekday(Date(2024, 3, 6)) == 2
    ensures Weekday(Date(2024, 3, 7)) == 3
  {
    assert DaysBeforeYear(2024) == 738885;
    assert DaysBeforeMonth(2024, 2) == 31 && DaysBeforeMonth(2024, 3) == 60;
  }

  /** The start date is yielded even when it is not a class day; 2024 is a
      leap year, so the next Thursday is 29 February, then 7 March. */
  lemma {:induction false} LeapDaySchedule()
    ensures 3 in Thursdays && HasClassDay(Thursdays)
    ensures Weekday(Date(2024, 2, 28)) !in Thursdays
    ensures Nth(Date(2024, 2, 28), Thursdays, None, 0) == Date(2024, 2, 28)
    ensures Nth(Date(2024, 2, 28), Thursdays, None, 1) == Date(2024, 2, 29)
    ensures Nth(Date(2024, 2, 28), Thursdays, None, 2) == Date(2024, 3, 7)
  {
    assert 3 in Thursdays;
    LateFebruary2024();
    var start := Date(2024, 2, 28);
    NthFirstIsStart(start, Thursdays, None);
    assert IsLeapYear(2024) && DaysInMonth(2024, 2) == 29;
    assert Successor(start) == Date(2024, 2, 29);
    assert SkipFrom(Date(2024, 2, 29), Thursdays, None) == Date(2024, 2, 29);
    assert Nth(start, Thursdays, None, 1) == Date(2024, 2, 29);
    assert Successor(Date(2024, 2, 29)) == Date(2024, 3, 1);
    assert Successor(Date(2024, 3, 1)) == Date(2024, 3, 2);
    assert Successor(Date(2024, 3, 2)) == Date(2024, 3, 3);
    assert Successor(Date(2024, 3, 3)) == Date(2024, 3, 4);
    assert Successor(Date(2024, 3, 4)) == Date(2024, 3, 5);
    assert Successor(Date(2024, 3, 5)) == Date(2024, 3, 6);
    assert Successor(Date(2024, 3, 6)) == Date(2024, 3, 7);
    assert SkipFrom(Date(2024, 3, 7), Thursdays, None) == Date(2024, 3, 7);
    assert SkipFrom(Date(2024, 3, 6), Thursdays, None) == Date(2024, 3, 7);
    assert SkipFrom(Date(2024, 3, 5), Thursdays, None) == Date(2024, 3, 7);
    assert SkipFrom(Date(2024, 3, 4), Thursdays, None) == Date(2024, 3, 7);
    assert SkipFrom(Date(2024, 3, 3), Thursdays, None) == Date(2024, 3, 7);
    assert SkipFrom(Date(2024, 3, 2), Thursdays, None) == Date(2024, 3, 7);
    assert SkipFrom(Date(2024, 3, 1), Thursdays, None) == Date(2024, 3, 7);
  }
}
