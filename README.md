# class-scheduler, modelled in Dafny

class-scheduler lays out a course's classes on a calendar. The command-line
script `makeClassSchedule.py` does this in four steps:

- It reads a start date in one of three loose formats (`flexidate`).
- It reads a comma list of class weekdays (`weekday_abbrev`).
- It reads any number of unavailable dates.
- It pairs each of the 36 hard-coded class titles (`get_classes`) with the
  next date from the generator `next_available_date`. That generator yields
  the start date first. It then steps one day at a time and skips every day
  whose weekday is not a class day and every unavailable date. The pairs are
  printed as one tab-delimited line.

The web page's `scheduler.js` edits a list of class names in a textarea,
one name per line. `addNameToList` runs one-line commands on it:

- `<name` prepends the name.
- `-name` deletes its first occurrence.
- `>name` or a plain name appends it.

`reader.onload` imports names from a text file and merges them into the
list.

The Dafny modules follow those pieces:

| file | module | what it holds |
|---|---|---|
| wrappers.dfy | Wrappers | `Option` and `Result` |
| text.dfy | Text | decimal digits and `'%s'` of integers; the first occurrence of a pattern (JavaScript `indexOf`, and the search inside Python's `str.split`); `split` and `join` with their round trips |
| calendar.dfy | Calendar | the part of `datetime.date` the generator uses: construction with its range checks, `+ timedelta(days=1)`, comparison, `weekday()` |
| generator.dfy | Generator | `next_available_date`: the skip loop as a function (`SkipFrom`, `NextAfter`, `Nth`) and as a loop (`Advance`); the suspended generator as the class `DateGenerator` whose `Next()` moves its cursor |
| dateparser.dfy | DateParser | `flexidate`, its two regular expressions written as recognisers that follow the backtracking order of `re.match` |
| weekdays.dfy | Weekdays, WeekdayExamples | `weekday_abbrev` as a loop over the token set, specified by the set it must produce |
| assembly.dfy | Assembly, ScheduleExamples | `get_classes`, the `zip` of titles with the generator (a function and a method that drives a `DateGenerator`), the printed line, and a parser that reads the line back |
| classnames.dfy | ClassNames | the textarea as the class `ClassNamesList` with a `value` field; `addNameToList` as `AddName`; the import as `Import` |

A printed date is also valid input to `flexidate` when its year has four digits (`Assembly.FlexidateReadsDatePart`). `'%s'` does not pad the year, so a date before year 1000 prints as, for example, `999-1-1`, which `flexidate` rejects (`Assembly.FlexidateRejectsShortYear`).

## Model

| member | source | states |
|---|---|---|
| Calendar.ValidDate | makeClassSchedule.py:82-83 | definition, no contract of its own: year at least 1 with no upper bound (`Calendar.MakeDate` adds the 9999 limit), month 1..12, day 1..the month's length; `Calendar.MakeDate` states the construction |
| Calendar.MakeDate | makeClassSchedule.py:82-83 | `datetime.date(y, m, d)` succeeds exactly for a real calendar date with year 1..9999 and returns that date; a bad day is reported only after year and month passed |
| Calendar.Successor | makeClassSchedule.py:89 | `doy + one_day` is a valid date strictly after `doy` |
| Calendar.SuccessorIsNext | makeClassSchedule.py:89 | no valid date lies strictly between a date and the next day |
| Calendar.SuccessorOrdinal | makeClassSchedule.py:89 | one day on is one more in the proleptic ordinal, across month ends, year ends and leap days |
| Calendar.Ordinal | makeClassSchedule.py:87-90 | the proleptic Gregorian day number of a valid date is at least 1; `SuccessorOrdinal` and `OrdinalMonotone` tie it to the next day and to date order |
| Calendar.Weekday | makeClassSchedule.py:87 | `doy.weekday()` is a number 0..6; with `FirstDayIsMonday` and `SuccessorWeekday` it is fixed for every date |
| Calendar.FirstDayIsMonday | makeClassSchedule.py:87 | 0001-01-01 is a Monday, weekday 0 |
| Calendar.SuccessorWeekday | makeClassSchedule.py:87-90 | one day on, `weekday()` advances by one modulo 7 |
| Calendar.OrdinalMonotone | makeClassSchedule.py:89 | an earlier date has a smaller ordinal |
| Calendar.OrdinalOrder | makeClassSchedule.py:89 | chronological order is ordinal order, both ways: `a` is before `b` exactly when its ordinal is smaller |
| Calendar.DaysInYear | makeClassSchedule.py:89 | a year has 366 days when it is a Gregorian leap year and 365 otherwise |
| Generator.Unavailable | makeClassSchedule.py:90 | definition, no contract of its own: `unavailable_dates and (y, m, d) in unavailable_dates`; `NothingExcludedByDefault` states the `None` and `[]` cases |
| Generator.Eligible | makeClassSchedule.py:90 | definition, no contract of its own: the negation of the skip loop's condition, a class weekday that is not unavailable; `SkipFrom` and `SkipFromFirst` state that the loop stops at the first such date |
| Generator.NothingExcludedByDefault | makeClassSchedule.py:90 | `unavailable_dates` of `None` or `[]` excludes no date |
| Generator.SkipMeasureDecreases | makeClassSchedule.py:90-92 | when `class_days` names a weekday, each pass of the skip loop passes an unavailable date or comes a day closer to a class weekday, so the loop ends |
| Generator.SkipFrom | makeClassSchedule.py:90-92 | the skip loop stops on a date on a class weekday that is not unavailable, no earlier than where it began |
| Generator.SkipFromFirst | makeClassSchedule.py:90-92 | the skip loop passes over no usable date |
| Generator.NextAfter | makeClassSchedule.py:89-92 | each resumption yields a usable date strictly after the previous one |
| Generator.NextAfterFirst | makeClassSchedule.py:89-92 | no usable date lies strictly between a yielded date and the next |
| Generator.Advance | makeClassSchedule.py:89-92 | the step-then-skip loop computes exactly the next yielded date |
| Generator.Nth | makeClassSchedule.py:86-92 | every yielded value is a valid date; the lemmas below state which dates they are |
| Generator.NthFirstIsStart | makeClassSchedule.py:82-88 | the first yielded value is the start date, unchecked against class days and unavailable dates |
| Generator.NthEligible | makeClassSchedule.py:89-92 | every later value is on a class weekday and not unavailable |
| Generator.NthIncreasing | makeClassSchedule.py:86-92 | the yielded dates are strictly increasing |
| Generator.NthNoneSkipped | makeClassSchedule.py:86-92 | no usable date lies between two consecutive yields |
| Generator.EveryEligibleDateYielded | makeClassSchedule.py:86-92 | every usable date after the start is yielded at some point |
| Generator.NthShift | makeClassSchedule.py:86-92 | resuming after the first value is the same as a generator started at the second |
| Generator.DateGenerator.constructor | makeClassSchedule.py:79 | calling the generator function runs nothing: the object is fresh, not started, and keeps its arguments |
| Generator.DateGenerator.Next | makeClassSchedule.py:82-92 | the first `next` raises for an invalid start triple (and the generator is then finished) or yields the start date; call k yields the k-th date; after a raise only StopIteration |
| DateParser.Flexidate | makeClassSchedule.py:95-117 | a date is returned only for text of at least 3 characters that starts with a digit, and then the year is below 10000 and month and day below 100; the lemmas below give each format |
| DateParser.MatchYmd | makeClassSchedule.py:109 | `re.match` of the year-first pattern succeeds exactly when some choice of one or two digits for month and day fits at the start; the text then starts with a digit and the groups are 4, 2 and 2 digits at most |
| DateParser.MatchMdy | makeClassSchedule.py:114 | the same for the year-last pattern |
| DateParser.MatchMdyPicks | makeClassSchedule.py:114 | the engine takes the first group lengths that fit in backtracking order (2-2, 2-1, 1-2, 1-1) |
| DateParser.FlexidateTooShort | makeClassSchedule.py:107-108 | input shorter than 3 characters raises `ValueError` |
| DateParser.YearMonthDayFits | makeClassSchedule.py:109 | `(\d{4})\D(\d{1,2})\D(\d{1,2})` reads four digits, a separator, one or two digits, a separator, one or two digits as year, month, day, whatever follows a complete day |
| DateParser.MonthDayYearFits | makeClassSchedule.py:114 | `(\d{1,2})\D(\d{1,2})\D(\d{4})` reads month, day and a four-digit year, whatever follows |
| DateParser.NoYearFirst | makeClassSchedule.py:109 | a non-digit among the first four characters rules out the year-first form |
| DateParser.FlexidateYearFirst | makeClassSchedule.py:109-111 | yyyy/mm/dd with any non-digit separators gives (yyyy, mm, dd); after a two-digit day any text may follow, after a one-digit day it must not start with a digit |
| DateParser.FlexidateYearLast | makeClassSchedule.py:114-116 | mm/dd/yyyy gives (yyyy, mm, dd); the appended current year is ignored |
| DateParser.FlexidateMonthDay | makeClassSchedule.py:114-116 | mm/dd gives (current year, mm, dd) |
| DateParser.FlexidateNonDigitStart | makeClassSchedule.py:117 | text that does not start with a digit raises `ValueError` |
| DateParser.FlexidateExampleMonthDay | makeClassSchedule.py:97-103 | "3/4" in 2025 reads as 2025-03-04 |
| DateParser.FlexidateExampleYearFirst | makeClassSchedule.py:97-103 | "2025/03/04" reads as 2025-03-04 |
| DateParser.FlexidateExampleYearLast | makeClassSchedule.py:97-103 | "03/04/2025" reads as 2025-03-04 |
| DateParser.FlexidateExampleWord | makeClassSchedule.py:117 | "March 4" raises `ValueError` |
| DateParser.FlexidateNoRangeCheck | makeClassSchedule.py:114-116 | month and day are not range-checked: "13/45/2024" gives (2024, 13, 45) |
| Text.SplitOn | makeClassSchedule.py:121 | `str.split(sep)` gives at least one piece and no piece contains the separator |
| Text.JoinSplit | makeClassSchedule.py:121 | joining the pieces of a split with the separator gives the text back |
| Text.SplitJoin | makeClassSchedule.py:160 | splitting a join of separator-free pieces gives the pieces back |
| Text.NatToStringValue | makeClassSchedule.py:160 | `'%s'` of a natural number is its unpadded decimal digits, read back as the number |
| Text.IndexOf | scheduler.js:40 | `indexOf` returns the first position where the pattern occurs, or -1 when it occurs nowhere |
| Weekdays.Lower | makeClassSchedule.py:121 | `s.lower()` keeps the length and lowers each character, A-Z to a-z |
| Weekdays.Tokens | makeClassSchedule.py:121 | `s.lower().split(',')` gives at least one comma-free piece, and the pieces joined by commas give the lowered text back |
| Weekdays.ClassDaySet | makeClassSchedule.py:121-133 | fails, with the "Valid days are [...]" message, exactly when some token is not an abbreviation; otherwise a non-empty set holding exactly the weekdays 0..6 whose abbreviation is a token |
| Weekdays.AbbrevIndex | makeClassSchedule.py:124-130 | a token maps to a weekday exactly when it is one of mon..sun, and then to its position 0..6 |
| Weekdays.WeekdayAbbrev | makeClassSchedule.py:120-133 | fails exactly when some lower-cased comma token is not an abbreviation, with the "Valid days are [...]" message; otherwise returns a list with no duplicates whose elements are exactly the weekdays named |
| Weekdays.TokensOfList | makeClassSchedule.py:121 | a comma-joined list of comma-free words splits back into those words, lower-cased |
| Weekdays.ClassDaySetIgnoresCase | makeClassSchedule.py:121 | the result does not depend on letter case |
| Weekdays.ClassDaySetUnknownToken | makeClassSchedule.py:131-132 | any one unknown token makes the whole argument fail |
| WeekdayExamples.ClassDaySetRepeatedMonday | makeClassSchedule.py:121-124 | "Mon,mon,MON" names Monday once |
| WeekdayExamples.ClassDaySetRejectsUnknown | makeClassSchedule.py:131-132 | "mon,xyz" fails |
| WeekdayExamples.ClassDaySetRejectsEmptyToken | makeClassSchedule.py:121-132 | "mon,,tue" fails on its empty token |
| WeekdayExamples.ClassDaySetRejectsEmpty | makeClassSchedule.py:121-132 | an empty argument fails |
| Assembly.GetClasses | makeClassSchedule.py:39-76 | the first title has no indent and every later one keeps the block's two-space indent |
| Assembly.ClassListEnds | makeClassSchedule.py:39-76 | there are 36 titles, from "Primer 1" to "  Graduation" |
| Assembly.ZipDates | makeClassSchedule.py:158 | `zip` stops with the titles: one entry per title |
| Assembly.ZipDatesNth | makeClassSchedule.py:158 | entry i pairs title i with the i-th yielded date |
| Assembly.Assemble | makeClassSchedule.py:158 | fails exactly when there is a title and the start triple is not a date of years 1..9999, since `zip` pulls a first date only for a first title; otherwise one entry per title, titles in order |
| Assembly.ScheduleDates | makeClassSchedule.py:158 | a schedule has one entry per title in order, the first on the start date, later ones on class weekdays and not unavailable, dates strictly increasing, and no usable day between neighbours |
| Assembly.Zip | makeClassSchedule.py:158 | driving a `DateGenerator` through `zip` gives the schedule; with no titles the generator is never started, so a bad start date raises only when there is a title; on success it has yielded exactly one date per title, and after a raise it is closed |
| Assembly.MakeSchedule | makeClassSchedule.py:158-160 | building the generator, zipping and formatting gives the printed line or the error raised |
| Assembly.ClassDaysReady | makeClassSchedule.py:158 | a class-day list that `weekday_abbrev` accepts names a weekday, so the generator's skip loop ends |
| Assembly.EmptyScheduleIsEmpty | makeClassSchedule.py:158-160 | no titles print an empty line, whatever the start date |
| Assembly.FormatEntry | makeClassSchedule.py:160 | an entry renders as text ending in a tab and its title; `ParseFormatEntry` reads it back |
| Assembly.FormatSchedule | makeClassSchedule.py:160 | definition, no contract of its own: the entries' renderings joined by two tabs; `ParseFormatSchedule` reads it back |
| Assembly.Schedule | makeClassSchedule.py:158-160 | fails exactly when `Assemble` does; no titles print the empty string |
| Assembly.ParseFormatEntry | makeClassSchedule.py:160 | an entry with a non-empty, tab-free title renders as `Y-M-D<TAB>title` and reads back as the same entry |
| Assembly.FlexidateReadsDatePart | makeClassSchedule.py:109-117 | a printed date (the `%s-%s-%s` of line 160) with a year in 1000..9999 reads back through `flexidate` as the same date |
| Assembly.FlexidateRejectsShortYear | makeClassSchedule.py:109-117 | a date before year 1000 prints with an unpadded year (`999-1-1`), which `flexidate` rejects |
| Assembly.ParseFormatSchedule | makeClassSchedule.py:160 | the printed line, entries joined by two tabs, reads back as the schedule it came from |
| ScheduleExamples.FirstWeekOf2024 | makeClassSchedule.py:87 | 2024-01-01 is a Monday and the week runs on from there |
| ScheduleExamples.SecondAndThirdClass | makeClassSchedule.py:86-92 | from Monday 2024-01-01 with Mon/Wed/Fri and Friday the 5th unavailable, the next values are 2024-01-03 and 2024-01-08 |
| ScheduleExamples.ThreeClassSchedule | makeClassSchedule.py:158-160 | three titles on that calendar print as `2024-1-1<TAB>A<TAB><TAB>2024-1-3<TAB>B<TAB><TAB>2024-1-8<TAB>C` |
| ScheduleExamples.LeapDaySchedule | makeClassSchedule.py:82-92 | a Wednesday start with Thursday classes is yielded even so; the leap day 2024-02-29 comes next, then 2024-03-07 |
| ClassNames.Edited | scheduler.js:30-54 | definition, no contract of its own: the list after one command with `<` reading the current text; `AddName` implements it and the lemmas below state its properties |
| ClassNames.EditedAsWritten | scheduler.js:33-35 | definition, no contract of its own: `<` building on `innerText` as written; `PrependReadsInnerText` shows the difference |
| ClassNames.ClassNamesList.AddName | scheduler.js:30-54 | the list after a command: empty changes nothing; `<x` puts `x` and a newline in front; `-x` removes the first occurrence of `x` and a newline; `>x` or plain `x` appends `x` and a newline |
| ClassNames.RemoveFirst | scheduler.js:38-44 | nothing changes when the pattern occurs nowhere; otherwise the result is the text before the first occurrence followed by the text after it |
| ClassNames.DeleteUndoesPrepend | scheduler.js:32-44 | `<x` then `-x` gives the list back |
| ClassNames.DeleteUndoesAppend | scheduler.js:36-52 | `>x` then `-x` gives the list back when the first occurrence of the name's line in the extended list is the one just appended (so no earlier match, including one that overlaps the list's end) |
| ClassNames.EditsAddLines | scheduler.js:32-52 | on a list of names, `<x` adds a first line and `>x` a last line |
| ClassNames.DeleteMatchesInsideLine | scheduler.js:36-44 | deletion matches text, not lines: `-ob` on "bob\n" leaves "b" |
| ClassNames.PrependReadsInnerText | scheduler.js:35 | as written, `<` builds on the textarea's original text, so names typed since loading are lost |
| ClassNames.SplitLines | scheduler.js:80 | splitting on runs of CR and LF gives at least one piece, none containing CR or LF |
| ClassNames.SplitLinesRebuild | scheduler.js:80 | the pieces with the removed runs put back between them are the text again, and every removed run is a non-empty string of CR and LF |
| ClassNames.SplitLinesInterior | scheduler.js:80 | every piece but the first and the last is non-empty, so each removed run is maximal |
| ClassNames.Trim | scheduler.js:82 | definition, no contract of its own: `trim()` as the slice between the leading and the trailing white space; `TrimSpec` and `TrimIdempotent` state it |
| ClassNames.TrimSpec | scheduler.js:82 | `trim()` removes white space from both ends and nothing else, and leaves no white space at either end |
| ClassNames.TrimIdempotent | scheduler.js:82 | trimming twice is trimming once |
| ClassNames.KeepAll | scheduler.js:84 | a line is in the result exactly when it is in the input, non-empty and starts with neither `;` nor `[` |
| ClassNames.KeepAllAppend | scheduler.js:84 | filtering a concatenation filters each part, so the kept lines stay in input order |
| ClassNames.ImportedNames | scheduler.js:80-84 | definition, no contract of its own: split, trim each line, filter; the three lemmas below state it |
| ClassNames.ImportedNamesClean | scheduler.js:80-84 | every imported name is non-empty, trimmed, free of line breaks and not a comment or section line |
| ClassNames.ImportedNamesOfJoin | scheduler.js:80-84 | clean names separated by a run of line breaks (LF, CR LF, ...), with none after the last, import as exactly those names in order |
| ClassNames.ImportedNamesOfLines | scheduler.js:80-84 | clean names each ended by the same run of line breaks, as the list itself is kept, import as exactly those names in order |
| ClassNames.ClassNamesList.Import | scheduler.js:80-95 | returns the imported names and sets the list to the trimmed old text, a newline if that is non-empty, the names joined by newlines and a final newline; this is also the result of line 91 as written whenever the trimmed old text ends with two characters of one line |
| ClassNames.Merged | scheduler.js:89-95 | the merged list always ends in a newline |
| ClassNames.MergedAppends | scheduler.js:89-95 | importing names into a list of names appends them as new lines |
| ClassNames.MergedNothing | scheduler.js:89-95 | a file with no names still adds an empty line |
| ClassNames.ListTrimAsWritten | scheduler.js:91 | definition, no contract of its own: the two `replace` calls as written; the rows below state what they do |
| ClassNames.MergedAsWritten | scheduler.js:89-95 | definition, no contract of its own: lines 89-95 with line 91 as written; `OneCharLastLineAsWritten` shows where it differs from `Merged` |
| ClassNames.TrailingMatchIff | scheduler.js:91 | `/(.+\S)\s*$/` matches exactly when the last non-blank character has a character before it on its line |
| ClassNames.ListTrimAsWrittenAgrees | scheduler.js:91 | the two regular expressions trim like `trim()` when the last non-blank character is not alone on its line |
| ClassNames.OneCharLastLineAsWritten | scheduler.js:91 | as written, "a\nb\n" keeps its final newline, so importing "c" gives "a\nb\n\nc\n" instead of "a\nb\nc\n" |

## Left out

- The command line (`argparse`, `sys.argv`, `print`) and `main`'s wrapping of the weekday list in `action="append"`. `Assembly.MakeSchedule` takes the parsed values.
- The `logger` calls: they only write diagnostics.
- `datetime.date.today()`: the current year is a parameter of `DateParser.Flexidate`.
- The `OverflowError` that `datetime` raises when the walk passes 9999-12-31. Dates past year 9999 are not checked during the walk; only the start date's year is checked.
- Python's regular-expression engine in general. Only the two patterns of `flexidate` and the two of `scheduler.js:91` are modelled.
- DateParser.Flexidate: `\d` and `\D` are modelled as ASCII digits, not all Unicode decimal digits.
- Weekdays.Lower: lower-cases ASCII letters only, because no other character lowers to a letter of an abbreviation.
- Weekdays.WeekdayAbbrev: the order of the returned list is left open, since Python's set iteration order depends on string hashing.
- Assembly.GetClasses: the triple-quoted block, `.strip()` and `.splitlines()` are not computed; the 36 lines they yield are written out.
- The Monday confirmation promised in the docstring of `makeClassSchedule.py` is never implemented, so it is not modelled.
- The docstring of `makeClassSchedule.py` shows dates as `yyyy/mm/d`. The code prints `Y-M-D` with unpadded numbers, and the model follows the code.
- Everything in `scheduler.js` that touches the page or the browser: `document.querySelector`, events, `redirectImportButton`, `FileReader`, `alert`, focus, scrolling, clearing the file input and `init`.
- The `try`/`catch` around lines 80-84: `split`, `map` and `filter` on a string cannot throw there.
- Generator.DateGenerator.constructor: requires `class_days` to name a weekday 0..6. With the default `class_days=None` the second `next` raises `TypeError` (`not in None`), and with a list naming no weekday the skip loop never ends; neither is modelled. `main` always passes the list from `weekday_abbrev`, and `Assembly.ClassDaysReady` shows that such a list names a weekday.
- ClassNames.ClassNamesList.AddName: `<` is stated on the current `value`, as intended. As written, line 35 reads `innerText`; `ClassNames.EditedAsWritten` models that, and the first row under Findings shows the difference.
- ClassNames.ClassNamesList.Import: the new list is stated with `trim()`, as line 91 intends. The two regular expressions as written are `ClassNames.MergedAsWritten`. The two agree when the trimmed list ends with two characters of one line, and the method states that too; the second row under Findings shows a list where they differ.
- `updateStartDateWeekday` is not part of this model. It depends on the browser's `Date` parsing. It also indexes a Monday-first array with the Sunday-first `getDay()`.

## Findings

| source | as written | input that shows it | evidently intended | confidence | as-written member | corrected member |
|---|---|---|---|---|---|---|
| scheduler.js:35 | `<name` prepends to `classNamesList.innerText`, which for a textarea is its original content, not the text shown | page loaded empty, user appends `Alice`, then enters `<Bob`: the list becomes "Bob\n" and Alice is gone | prepend to the current `value`, giving "Bob\nAlice\n" | medium, not executed | ClassNames.PrependReadsInnerText | ClassNames.ClassNamesList.AddName |
| scheduler.js:91 | the trailing regex `(.+\S)\s*$` needs two characters on the last non-blank line, so a list whose last name is one character keeps its trailing newline | list "a\nb\n", import "c": the result is "a\nb\n\nc\n" with a blank line | trim both ends, giving "a\nb\nc\n" | high, not executed | ClassNames.OneCharLastLineAsWritten | ClassNames.MergedAppends |
