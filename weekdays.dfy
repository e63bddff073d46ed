/** `weekday_abbrev`: reads a comma-separated, case-insensitive list of
    weekday abbreviations into a duplicate-free list of weekday numbers
    (calendar.MONDAY = 0 through calendar.SUNDAY = 6). */
module Weekdays {
  import opened Wrappers
  import opened Text

  const WeekdayAbbrevs: seq<string> := ["mon", "tue", "wed", "thu", "fri", "sat", "sun"]

  /** The message of the `argparse.ArgumentTypeError` raised for an
      unknown token; it lists the accepted abbreviations, not the token. */
  const ValidDaysMessage: string := "Valid days are [mon, tue, wed, thu, fri, sat, sun]."

  datatype WeekdayError = ArgumentTypeError(message: string)

  /** `str.lower()` on one character. Only A-Z lower to a letter that can
      occur in an abbreviation, so the other case mappings are left alone. */
  function LowerChar(c: char): char
  {
    if 'A' <= c <= 'Z' then (c as int + 32) as char else c
  }

  function Lower(s: string): (r: string)
    ensures |r| == |s| && forall i :: 0 <= i < |s| ==> r[i] == LowerChar(s[i])
  {
    if s == [] then [] else [LowerChar(s[0])] + Lower(s[1..])
  }

  /** `s.lower().split(',')`: comma-free pieces that, joined by commas,
      give the lowered text back. */
  function Tokens(s: string): (r: seq<string>)
    ensures |r| >= 1 && Join(r, ",") == Lower(s)
    ensures forall t :: t in r ==> IndexOf(t, ",") < 0
  {
    JoinSplit(Lower(s), ",");
    SplitOn(Lower(s), ",")
  }

  /** The `if`/`elif` chain: the weekday number an abbreviation names. */
  function AbbrevIndex(t: string): (r: Option<int>)
    ensures r.Some? <==> t in WeekdayAbbrevs
    ensures r.Some? ==> 0 <= r.value < 7 && WeekdayAbbrevs[r.value] == t
  {
    if t == "mon" then Some(0)
    else if t == "tue" then Some(1)
    else if t == "wed" then Some(2)
    else if t == "thu" then Some(3)
    else if t == "fri" then Some(4)
    else if t == "sat" then Some(5)
    else if t == "sun" then Some(6)
    else None
  }

  predicate AllKnown(tokens: seq<string>)
  {
    forall t :: t in tokens ==> AbbrevIndex(t).Some?
  }

  /** What `weekday_abbrev` promises, as a set: the weekdays named, or the
      error if any token is not an abbreviation. */
  function ClassDaySet(s: string): (r: Result<set<int>, WeekdayError>)
    ensures r.Failure? <==> exists t :: t in Tokens(s) && t !in WeekdayAbbrevs
    ensures r.Failure? ==> r.error == ArgumentTypeError(ValidDaysMessage)
    ensures r.Success? ==> r.value != {}
    ensures r.Success? ==> forall w :: w in r.value <==> 0 <= w < 7 && WeekdayAbbrevs[w] in Tokens(s)
  {
    var tokens := Tokens(s);
    if AllKnown(tokens) then
      DaysNamedMembers(tokens);
      Success(DaysNamed(tokens))
    else Failure(ArgumentTypeError(ValidDaysMessage))
  }

  /** The weekday numbers of a list of abbreviations. */
  function DaysNamed(tokens: seq<string>): set<int>
    requires AllKnown(tokens)
  {
    set t | t in tokens :: AbbrevIndex(t).value
  }

  /** A weekday is named exactly when its abbreviation is in the list. */
  lemma {:induction false} DaysNamedMembers(tokens: seq<string>)
    requires AllKnown(tokens) && |tokens| >= 1
    ensures DaysNamed(tokens) != {}
    ensures forall w :: w in DaysNamed(tokens) <==> 0 <= w < 7 && WeekdayAbbrevs[w] in tokens
  {
    var days := DaysNamed(tokens);
    assert tokens[0] in tokens && AbbrevIndex(tokens[0]).value in days;
    forall w
      ensures w in days <==> 0 <= w < 7 && WeekdayAbbrevs[w] in tokens
    {
      if w in days {
        var t :| t in tokens && AbbrevIndex(t).value == w;
      }
      if 0 <= w < 7 && WeekdayAbbrevs[w] in tokens {
        var t := WeekdayAbbrevs[w];
        assert AbbrevIndex(t) == Some(w);
        assert AbbrevIndex(t).value in days;
      }
    }
  }

  predicate NoDuplicates(xs: seq<int>)
  {
    forall i, j :: 0 <= i < j < |xs| ==> xs[i] != xs[j]
  }

  /** `weekday_abbrev(s)`: iterates over `set(tokens)` in no particular
      order, appending each token's weekday, and raises on the first unknown
      token it meets. */
  method WeekdayAbbrev(s: string) returns (r: Result<seq<int>, WeekdayError>)
    ensures r.Success? <==> ClassDaySet(s).Success?
    ensures r.Success? ==> NoDuplicates(r.value)
    ensures r.Success? ==> forall w :: w in r.value <==> w in ClassDaySet(s).value
    ensures r.Failure? ==> r.error == ArgumentTypeError(ValidDaysMessage)
  {
    var tokens := Tokens(s);
    var pending := set t | t in tokens;
    ghost var seen: set<string> := {};
    var classDays: seq<int> := [];
    while pending != {}
      invariant pending !! seen && pending + seen == set t | t in tokens
      invariant forall t :: t in seen ==> AbbrevIndex(t).Some?
      invariant forall w :: w in classDays <==> exists t :: t in seen && AbbrevIndex(t) == Some(w)
      invariant NoDuplicates(classDays)
      decreases pending
    {
      var t :| t in pending;
      var w := AbbrevIndex(t);
      if w.None? {
        return Failure(ArgumentTypeError(ValidDaysMessage));
      }
      forall t' | t' in seen
        ensures AbbrevIndex(t') != w
      {
        assert t' != t;
      }
      classDays := classDays + [w.value];
      pending, seen := pending - {t}, seen + {t};
    }
    assert AllKnown(tokens) by {
      forall t | t in tokens ensures AbbrevIndex(t).Some? {
        assert t in seen;
      }
    }
    r := Success(classDays);
  }

  function LowerAll(ts: seq<string>): (r: seq<string>)
    ensures |r| == |ts| && forall i :: 0 <= i < |ts| ==> r[i] == Lower(ts[i])
  {
    if ts == [] then [] else [Lower(ts[0])] + LowerAll(ts[1..])
  }

  lemma {:induction false} LowerJoin(ts: seq<string>)
    ensures Lower(Join(ts, ",")) == Join(LowerAll(ts), ",")
    decreases |ts|
  {
    if |ts| > 1 {
      LowerJoin(ts[1..]);
      assert LowerAll(ts)[1..] == LowerAll(ts[1..]);
      var j := Join(ts[1..], ",");
      assert Lower(ts[0] + "," + j) == Lower(ts[0]) + "," + Lower(j);
    }
  }

  lemma {:induction false} LowerCommaFree(t: string)
    requires ',' !in t
    ensures ',' !in Lower(t)
  {
    forall k | 0 <= k < |t|
      ensures Lower(t)[k] != ','
    {
      assert t[k] != ',';
    }
  }

  lemma {:induction false} LowerAllCommaFree(ts: seq<string>)
    requires forall t :: t in ts ==> ',' !in t
    ensures forall p :: p in LowerAll(ts) ==> ',' !in p
    decreases |ts|
  {
    if ts != [] {
      assert ts[0] in ts;
      LowerCommaFree(ts[0]);
      LowerAllCommaFree(ts[1..]);
      assert LowerAll(ts) == [Lower(ts[0])] + LowerAll(ts[1..]);
    }
  }

  /** A comma-joined list of comma-free words splits back into those words,
      lower-cased. */
  lemma {:induction false} TokensOfList(ts: seq<string>)
    requires |ts| >= 1 && forall t :: t in ts ==> ',' !in t
    ensures Tokens(Join(ts, ",")) == LowerAll(ts)
  {
    LowerJoin(ts);
    LowerAllCommaFree(ts);
    forall p | p in LowerAll(ts)
      ensures SeparatesCleanly(p, ",")
    {
      SeparatesCleanlyChar(p, ',');
    }
    SplitJoin(LowerAll(ts), ",");
  }

  /** Upper and lower case are the same. */
  lemma {:induction false} LowerIdempotent(s: string)
    ensures Lower(Lower(s)) == Lower(s)
  {
  }

  lemma {:induction false} ClassDaySetIgnoresCase(s: string)
    ensures ClassDaySet(Lower(s)) == ClassDaySet(s)
  {
    LowerIdempotent(s);
  }

  /** One token that is not an abbreviation makes the whole list fail. */
  lemma {:induction false} ClassDaySetUnknownToken(s: string, tokens: seq<string>, i: int)
    requires tokens == Tokens(s) && 0 <= i < |tokens| && tokens[i] !in WeekdayAbbrevs
    ensures ClassDaySet(s) == Failure(ArgumentTypeError(ValidDaysMessage))
  {
    assert tokens[i] in tokens;
  }
}

/** Worked examples of `weekday_abbrev`. */
module WeekdayExamples {
  import opened Wrappers
  import opened Text
  import opened Weekdays

  lemma {:induction false} TokensRepeatedMonday()
    ensures Tokens("Mon,mon,MON") == ["mon", "mon", "mon"]
  {
    var ts := ["Mon", "mon", "MON"];
    assert Join(ts, ",") == "Mon,mon,MON";
    TokensOfList(ts);
    assert Lower("Mon") == "mon" && Lower("MON") == "mon" && Lower("mon") == "mon";
    assert LowerAll(ts) == ["mon", "mon", "mon"];
  }

  lemma {:induction false} ClassDaySetThreeMondays(s: string)
    requires Tokens(s) == ["mon", "mon", "mon"]
    ensures ClassDaySet(s) == Success({0})
  {
    var tokens := Tokens(s);
    assert AllKnown(tokens);
    var days := set t | t in tokens :: AbbrevIndex(t).value;
    assert 0 in days by {
      assert tokens[0] in tokens;
    }
    forall x | x in days
      ensures x == 0
    {
      var t :| t in tokens && x == AbbrevIndex(t).value;
    }
    assert days == {0};
  }

  /** "Mon,mon,MON" names Monday once. */
  lemma {:induction false} ClassDaySetRepeatedMonday()
    ensures ClassDaySet("Mon,mon,MON") == Success({0})
  {
    TokensRepeatedMonday();
    ClassDaySetThreeMondays("Mon,mon,MON");
  }

  lemma {:induction false} TokensWithUnknown()
    ensures Tokens("mon,xyz") == ["mon", "xyz"]
  {
    TokensOfList(["mon", "xyz"]);
    assert Join(["mon", "xyz"], ",") == "mon,xyz";
    assert Lower("xyz") == "xyz" && Lower("mon") == "mon";
  }

  lemma {:induction false} TokensWithEmpty()
    ensures Tokens("mon,,tue") == ["mon", "", "tue"]
  {
    TokensOfList(["mon", "", "tue"]);
    assert Join(["mon", "", "tue"], ",") == "mon,,tue";
    assert Lower("tue") == "tue" && Lower("mon") == "mon";
  }

  /** Every token must be an abbreviation: an unknown word fails the list. */
  lemma {:induction false} ClassDaySetRejectsUnknown()
    ensures ClassDaySet("mon,xyz") == Failure(ArgumentTypeError(ValidDaysMessage))
  {
    TokensWithUnknown();
    ClassDaySetUnknownToken("mon,xyz", ["mon", "xyz"], 1);
  }

  /** An empty token between two commas fails the list. */
  lemma {:induction false} ClassDaySetRejectsEmptyToken()
    ensures ClassDaySet("mon,,tue") == Failure(ArgumentTypeError(ValidDaysMessage))
  {
    TokensWithEmpty();
    var tokens := Tokens("mon,,tue");
    assert tokens[1] == "" && AbbrevIndex("") == None;
    assert tokens[1] in tokens;
  }

  /** An empty argument is one empty token, so it fails too. */
  lemma {:induction false} ClassDaySetRejectsEmpty()
    ensures ClassDaySet("") == Failure(ArgumentTypeError(ValidDaysMessage))
  {
    assert Tokens("") == [""];
    ClassDaySetUnknownToken("", [""], 0);
  }
}
