/** The schedule generator `next_available_date`: it yields the start date
    unfiltered, then walks forward one day at a time, skipping every day
    whose weekday is not a class day and every unavailable date. The pure
    functions give the n-th yielded date; the class DateGenerator is the
    suspended generator, whose cursor `doy` each `Next()` advances. */
module Generator {
  import opened Wrappers
  import opened Calendar

  /** `unavailable_dates and (y, m, d) in unavailable_dates`: the
      short-circuit makes a None or empty list exclude nothing. */
  predicate Unavailable(d: Date, excl: Option<seq<Date>>)
  {
    excl.Some? && |excl.value| > 0 && d in excl.value
  }

  lemma {:induction false} NothingExcludedByDefault(d: Date)
    ensures !Unavailable(d, None) && !Unavailable(d, Some([]))
  {
  }

  /** A day on which the inner loop stops: its weekday is a class day and
      it is not unavailable. The two tests gate independently. */
  predicate Eligible(d: Date, days: seq<int>, excl: Option<seq<Date>>)
    requires ValidDate(d)
  {
    Weekday(d) in days && !Unavailable(d, excl)
  }

  /** Some entry of `class_days` is a weekday; without one the skip loop
      never ends. */
  predicate HasClassDay(days: seq<int>)
  {
    exists w :: w in days && 0 <= w < 7
  }

  ghost function SomeClassDay(days: seq<int>): (w: int)
    requires HasClassDay(days)
    ensures w in days && 0 <= w < 7
  {
    var w :| w in days && 0 <= w < 7; w
  }

  /** Days from `d` forward to the next day with weekday SomeClassDay(days). */
  ghost function DaysToClassDay(d: Date, days: seq<int>): nat
    requires ValidDate(d) && HasClassDay(days)
  {
    (SomeClassDay(days) - Weekday(d)) % 7
  }

  /** The number of entries of `s` that are not before `c`. */
  function CountNotBefore(s: seq<Date>, c: Date): nat
  {
    if s == [] then 0
    else CountNotBefore(s[1..], c) + (if Less(s[0], c) then 0 else 1)
  }

  ghost function Ahead(c: Date, excl: Option<seq<Date>>): nat
  {
    if excl.Some? then CountNotBefore(excl.value, c) else 0
  }

  lemma {:induction false} CountNotBeforeStep(s: seq<Date>, c: Date)
    requires ValidDate(c)
    ensures CountNotBefore(s, Successor(c)) <= CountNotBefore(s, c)
    ensures c in s ==> CountNotBefore(s, Successor(c)) < CountNotBefore(s, c)
  {
    if s != [] {
      CountNotBeforeStep(s[1..], c);
      if s[0] != c {
        assert c in s ==> c in s[1..];
      }
    }
  }

  /** The skip loop's measure: either an unavailable date is passed, or the
      distance to the next class weekday shrinks. */
  lemma {:induction false} SkipMeasureDecreases(c: Date, days: seq<int>, excl: Option<seq<Date>>)
    requires ValidDate(c) && HasClassDay(days) && !Eligible(c, days, excl)
    ensures Ahead(Successor(c), excl) < Ahead(c, excl)
      || (Ahead(Successor(c), excl) == Ahead(c, excl)
          && DaysToClassDay(Successor(c), days) < DaysToClassDay(c, days))
  {
    if Unavailable(c, excl) {
      CountNotBeforeStep(excl.value, c);
    } else {
      if excl.Some? {
        CountNotBeforeStep(excl.value, c);
      }
      var s := Successor(c);
      SuccessorWeekday(c);
      var w, wd := SomeClassDay(days), Weekday(c);
      assert wd != w;
      DistanceStep(w, wd);
      assert DaysToClassDay(c, days) == (w - wd) % 7;
      assert DaysToClassDay(s, days) == (w - (wd + 1) % 7) % 7;
    }
  }

  /** One day on, the distance to weekday w shrinks by one, unless the day
      already is w. */
  lemma {:induction false} DistanceStep(w: int, wd: int)
    requires 0 <= w < 7 && 0 <= wd < 7 && w != wd
    ensures (w - (wd + 1) % 7) % 7 == (w - wd) % 7 - 1
  {
    if wd == 6 {
      assert (wd + 1) % 7 == 0;
      assert (w - wd) % 7 == w + 1;
    } else if w > wd {
      assert (wd + 1) % 7 == wd + 1;
      assert (w - wd) % 7 == w - wd;
    } else {
      assert (wd + 1) % 7 == wd + 1;
      assert (w - wd) % 7 == w - wd + 7;
      assert (w - wd - 1) % 7 == w - wd + 6;
    }
  }

  /** The inner `while` loop: the first eligible date on or after `c`. */
  function SkipFrom(c: Date, days: seq<int>, excl: Option<seq<Date>>): (r: Date)
    requires ValidDate(c) && HasClassDay(days)
    ensures ValidDate(r) && Eligible(r, days, excl)
    ensures !Less(r, c)
    decreases Ahead(c, excl), DaysToClassDay(c, days)
  {
    if Eligible(c, days, excl) then c
    else
      SkipMeasureDecreases(c, days, excl);
      SkipFrom(Successor(c), days, excl)
  }

  /** The loop stops at the first eligible date: none is passed over. */
  lemma {:induction false} SkipFromFirst(c: Date, days: seq<int>, excl: Option<seq<Date>>, x: Date)
    requires ValidDate(c) && HasClassDay(days) && ValidDate(x)
    requires !Less(x, c) && Less(x, SkipFrom(c, days, excl))
    ensures !Eligible(x, days, excl)
    decreases Ahead(c, excl), DaysToClassDay(c, days)
  {
    if x != c {
      SkipMeasureDecreases(c, days, excl);
      SuccessorIsNext(c, x);
      SkipFromFirst(Successor(c), days, excl, x);
    }
  }

  /** One resumption of the generator after it has yielded `d`. */
  function NextAfter(d: Date, days: seq<int>, excl: Option<seq<Date>>): (r: Date)
    requires ValidDate(d) && HasClassDay(days)
    ensures ValidDate(r) && Eligible(r, days, excl)
    ensures Less(d, r)
  {
    SkipFrom(Successor(d), days, excl)
  }

  /** No eligible date lies strictly between a yielded date and the next. */
  lemma {:induction false} NextAfterFirst(d: Date, days: seq<int>, excl: Option<seq<Date>>, x: Date)
    requires ValidDate(d) && HasClassDay(days) && ValidDate(x)
    requires Less(d, x) && Less(x, NextAfter(d, days, excl))
    ensures !Eligible(x, days, excl)
  {
    SuccessorIsNext(d, x);
    SkipFromFirst(Successor(d), days, excl, x);
  }

  /** The n-th value the generator yields, counting from 0. */
  function Nth(start: Date, days: seq<int>, excl: Option<seq<Date>>, n: nat): (r: Date)
    requires ValidDate(start) && HasClassDay(days)
    ensures ValidDate(r)
  {
    if n == 0 then start else NextAfter(Nth(start, days, excl, n - 1), days, excl)
  }

  /** The first value is the start date itself, without any check. */
  lemma {:induction false} NthFirstIsStart(start: Date, days: seq<int>, excl: Option<seq<Date>>)
    requires ValidDate(start) && HasClassDay(days)
    ensures Nth(start, days, excl, 0) == start
  {
  }

  /** Every later value is on a class day and not unavailable. */
  lemma {:induction false} NthEligible(start: Date, days: seq<int>, excl: Option<seq<Date>>, n: nat)
    requires ValidDate(start) && HasClassDay(days) && n > 0
    ensures Weekday(Nth(start, days, excl, n)) in days
    ensures !Unavailable(Nth(start, days, excl, n), excl)
  {
  }

  /** The yielded dates are strictly increasing. */
  lemma {:induction false} NthIncreasing(start: Date, days: seq<int>, excl: Option<seq<Date>>, i: nat, j: nat)
    requires ValidDate(start) && HasClassDay(days) && i < j
    ensures Less(Nth(start, days, excl, i), Nth(start, days, excl, j))
    decreases j - i
  {
    if i + 1 < j {
      NthIncreasing(start, days, excl, i, j - 1);
      LessTransitive(Nth(start, days, excl, i), Nth(start, days, excl, j - 1), Nth(start, days, excl, j));
    }
  }

  /** No eligible date lies strictly between two consecutive values. */
  lemma {:induction false} NthNoneSkipped(start: Date, days: seq<int>, excl: Option<seq<Date>>, n: nat, x: Date)
    requires ValidDate(start) && HasClassDay(days) && ValidDate(x)
    requires Less(Nth(start, days, excl, n), x) && Less(x, Nth(start, days, excl, n + 1))
    ensures !Eligible(x, days, excl)
  {
    NextAfterFirst(Nth(start, days, excl, n), days, excl, x);
  }

  lemma {:induction false} Reaches(start: Date, days: seq<int>, excl: Option<seq<Date>>, x: Date, n: nat)
    requires ValidDate(start) && HasClassDay(days) && ValidDate(x) && Eligible(x, days, excl)
    requires Less(Nth(start, days, excl, n), x)
    ensures exists k :: k > n && Nth(start, days, excl, k) == x
    decreases Ordinal(x) - Ordinal(Nth(start, days, excl, n))
  {
    var y := Nth(start, days, excl, n + 1);
    if y != x {
      if Less(x, y) {
        NextAfterFirst(Nth(start, days, excl, n), days, excl, x);
      }
      assert Less(y, x);
      OrdinalMonotone(Nth(start, days, excl, n), y);
      OrdinalMonotone(y, x);
      Reaches(start, days, excl, x, n + 1);
    }
  }

  /** Every eligible date after the start is yielded at some point. */
  lemma {:induction false} EveryEligibleDateYielded(start: Date, days: seq<int>, excl: Option<seq<Date>>, x: Date)
    requires ValidDate(start) && HasClassDay(days) && ValidDate(x)
    requires Less(start, x) && Eligible(x, days, excl)
    ensures exists k :: k > 0 && Nth(start, days, excl, k) == x
  {
    Reaches(start, days, excl, x, 0);
  }

  /** Resuming from the first value is generating from it: the sequence from
      the second value on is the one that starts there. */
  lemma {:induction false} NthShift(start: Date, days: seq<int>, excl: Option<seq<Date>>, n: nat)
    requires ValidDate(start) && HasClassDay(days)
    ensures Nth(NextAfter(start, days, excl), days, excl, n) == Nth(start, days, excl, n + 1)
  {
    if n > 0 {
      var a := NextAfter(start, days, excl);
      NthShift(start, days, excl, n - 1);
      assert Nth(a, days, excl, n) == NextAfter(Nth(a, days, excl, n - 1), days, excl);
    }
  }

  /** The generator's resumption: step one day, then skip while the day is
      not a class day or is unavailable. */
  method Advance(d: Date, days: seq<int>, excl: Option<seq<Date>>) returns (doy: Date)
    requires ValidDate(d) && HasClassDay(days)
    ensures doy == NextAfter(d, days, excl)
  {
    doy := Successor(d);
    while !Eligible(doy, days, excl)
      invariant ValidDate(doy)
      invariant SkipFrom(doy, days, excl) == NextAfter(d, days, excl)
      decreases Ahead(doy, excl), DaysToClassDay(doy, days)
    {
      SkipMeasureDecreases(doy, days, excl);
      doy := Successor(doy);
    }
  }

  datatype GenError = InvalidStart(reason: DateError) | StopIteration

  /** A suspended `next_available_date(start_date, class_days,
      unavailable_dates)` generator object. */
  class DateGenerator {
    const start: Date
    const days: seq<int>
    const excl: Option<seq<Date>>
    /** The local `doy`: the value yielded last. */
    var cursor: Date
    var started: bool
    /** Set once the body has raised; the generator then only stops. */
    var closed: bool
    ghost var produced: nat

    ghost predicate Valid()
      reads this
    {
      && HasClassDay(days)
      && (started ==> !closed && MakeDate(start.year, start.month, start.day).Success?
                      && produced >= 1 && cursor == Nth(start, days, excl, produced - 1))
      && (!started ==> produced == 0)
    }

    constructor (start: Date, days: seq<int>, excl: Option<seq<Date>>)
      requires HasClassDay(days)
      ensures Valid()
      ensures this.start == start && this.days == days && this.excl == excl
      ensures !started && !closed && produced == 0
    {
      this.start, this.days, this.excl := start, days, excl;
      cursor := start;
      started, closed := false, false;
      produced := 0;
    }

    /** `next(generator)`. The first call builds `datetime.date(*start)`,
        which raises on an invalid triple; every later call steps and skips. */
    method Next() returns (r: Result<Date, GenError>)
      requires Valid()
      modifies this
      ensures Valid()
      ensures old(closed) ==> r == Failure(StopIteration) && closed && produced == old(produced)
      ensures !old(closed) && !old(started) && MakeDate(start.year, start.month, start.day).Failure? ==>
        r == Failure(InvalidStart(MakeDate(start.year, start.month, start.day).error)) && closed && !started
      ensures !old(closed) && (old(started) || MakeDate(start.year, start.month, start.day).Success?) ==>
        r == Success(Nth(start, days, excl, old(produced))) && started && produced == old(produced) + 1
    {
      if closed {
        return Failure(StopIteration);
      }
      if !started {
        var d := MakeDate(start.year, start.month, start.day);
        if d.Failure? {
          closed := true;
          return Failure(InvalidStart(d.error));
        }
        cursor, started, produced := d.value, true, 1;
        return Success(cursor);
      }
      assert Nth(start, days, excl, produced) == NextAfter(cursor, days, excl);
      cursor := Advance(cursor, days, excl);
      produced := produced + 1;
      r := Success(cursor);
    }
  }
}
