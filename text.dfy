/** String helpers shared by both programs: decimal digits, substring search
    (JavaScript `indexOf`), splitting on a separator (Python `str.split(sep)`)
    and joining (`sep.join(parts)`, JavaScript `parts.join(sep)`). */
module Text {

  predicate IsDigit(c: char) { '0' <= c <= '9' }

  predicate AllDigits(s: string) { forall i :: 0 <= i < |s| ==> IsDigit(s[i]) }

  function DigitValue(c: char): (n: nat)
    requires IsDigit(c)
    ensures n < 10
  {
    (c as int - '0' as int) as nat
  }

  function DigitChar(n: nat): (c: char)
    requires n < 10
    ensures IsDigit(c) && DigitValue(c) == n
  {
    ('0' as int + n) as char
  }

  /** The value of a string of decimal digits, as Python's `int()` reads it. */
  function DigitsValue(s: string): nat
    requires AllDigits(s)
  {
    if s == [] then 0 else DigitsValue(s[..|s| - 1]) * 10 + DigitValue(s[|s| - 1])
  }

  /** A sequence is its three slices at `i` and `j` put together. */
  lemma {:induction false} SliceThree<T>(s: seq<T>, i: nat, j: nat)
    requires i <= j <= |s|
    ensures s == s[..i] + s[i..j] + s[j..]
  {
  }

  /** Appending after a non-empty sequence appends after its tail. */
  lemma {:induction false} AppendAfterHead<T>(xs: seq<T>, ys: seq<T>)
    requires |xs| >= 1
    ensures xs + ys == [xs[0]] + (xs[1..] + ys)
  {
    assert xs == [xs[0]] + xs[1..];
  }

  /** A string of n digits is worth less than 10 to the n. */
  lemma {:induction false} DigitsValueBelow(s: string)
    requires AllDigits(s)
    ensures |s| <= 1 ==> DigitsValue(s) < 10
    ensures |s| <= 2 ==> DigitsValue(s) < 100
    ensures |s| <= 3 ==> DigitsValue(s) < 1000
    ensures |s| <= 4 ==> DigitsValue(s) < 10000
    decreases |s|
  {
    if s != [] {
      DigitsValueBelow(s[..|s| - 1]);
    }
  }

  /** Unpadded decimal rendering, as Python's `'%d'` and `'%s'` print a
      non-negative int. */
  function NatToString(n: nat): (s: string)
    ensures AllDigits(s) && |s| >= 1
  {
    if n < 10 then [DigitChar(n)] else NatToString(n / 10) + [DigitChar(n % 10)]
  }

  /** `'%s' % i` for any int. */
  function IntToString(i: int): string
  {
    if i < 0 then "-" + NatToString(-i) else NatToString(i)
  }

  lemma {:induction false} NatToStringValue(n: nat)
    ensures DigitsValue(NatToString(n)) == n
    ensures n < 10 ==> |NatToString(n)| == 1
    ensures 10 <= n < 100 ==> |NatToString(n)| == 2
    ensures 100 <= n < 1000 ==> |NatToString(n)| == 3
    ensures 1000 <= n < 10000 ==> |NatToString(n)| == 4
    decreases n
  {
    var s := NatToString(n);
    if n >= 10 {
      NatToStringValue(n / 10);
      assert s == NatToString(n / 10) + [DigitChar(n % 10)];
      assert s[..|s| - 1] == NatToString(n / 10);
    }
  }

  predicate OccursAt(s: string, pat: string, i: int)
  {
    0 <= i && i + |pat| <= |s| && s[i..i + |pat|] == pat
  }

  /** An occurrence inside `s` is one inside `s + t`, and conversely for an
      occurrence that ends within `s`. */
  lemma {:induction false} OccursAtExtend(s: string, t: string, pat: string, k: int)
    requires 0 <= k && k + |pat| <= |s|
    ensures OccursAt(s + t, pat, k) <==> OccursAt(s, pat, k)
  {
    assert (s + t)[k..k + |pat|] == s[k..k + |pat|];
  }

  lemma {:induction false} OccursShift(s: string, pat: string)
    requires |s| > 0
    ensures forall k :: 1 <= k ==> (OccursAt(s, pat, k) <==> OccursAt(s[1..], pat, k - 1))
  {
    forall k | 1 <= k
      ensures OccursAt(s, pat, k) <==> OccursAt(s[1..], pat, k - 1)
    {
      if k + |pat| <= |s| {
        var a, b := s[k..k + |pat|], s[1..][k - 1..k - 1 + |pat|];
        assert |a| == |b|;
        assert forall j :: 0 <= j < |a| ==> a[j] == s[k + j] == b[j];
        assert a == b;
      }
    }
  }

  /** JavaScript `s.indexOf(pat)`: the first position at which `pat` occurs
      in `s`, or -1. */
  function IndexOf(s: string, pat: string): (r: int)
    ensures -1 <= r <= |s|
    ensures r >= 0 ==> OccursAt(s, pat, r)
    ensures forall k :: 0 <= k && (r < 0 || k < r) ==> !OccursAt(s, pat, k)
    decreases |s|
  {
    if |pat| > |s| then -1
    else if s[..|pat|] == pat then 0
    else
      OccursShift(s, pat);
      var k := IndexOf(s[1..], pat);
      if k < 0 then -1 else k + 1
  }

  /** The first occurrence of `pat` in `s + t` is the first one in `s`
      whenever `s` already contains `pat`. */
  lemma {:induction false} IndexOfExtend(s: string, t: string, pat: string)
    requires IndexOf(s, pat) >= 0
    ensures IndexOf(s + t, pat) == IndexOf(s, pat)
  {
    var i := IndexOf(s, pat);
    OccursAtExtend(s, t, pat, i);
    var j := IndexOf(s + t, pat);
    if j < i {
      OccursAtExtend(s, t, pat, j);
    }
  }

  /** Python `s.split(sep)` for a non-empty separator: the pieces between
      the leftmost non-overlapping occurrences of `sep`. */
  function SplitOn(s: string, sep: string): (parts: seq<string>)
    requires |sep| > 0
    ensures |parts| >= 1
    ensures forall p :: p in parts ==> IndexOf(p, sep) < 0
    decreases |s|
  {
    var i := IndexOf(s, sep);
    if i < 0 then [s]
    else
      assert IndexOf(s[..i], sep) < 0 by {
        var j := IndexOf(s[..i], sep);
        if j >= 0 {
          assert s == s[..i] + s[i..];
          OccursAtExtend(s[..i], s[i..], sep, j);
        }
      }
      [s[..i]] + SplitOn(s[i + |sep|..], sep)
  }

  /** `sep.join(parts)`. */
  function Join(parts: seq<string>, sep: string): string
  {
    if parts == [] then ""
    else if |parts| == 1 then parts[0]
    else parts[0] + sep + Join(parts[1..], sep)
  }

  lemma {:induction false} JoinCons(p: string, ps: seq<string>, sep: string)
    requires |ps| >= 1
    ensures Join([p] + ps, sep) == p + sep + Join(ps, sep)
  {
    assert ([p] + ps)[1..] == ps;
  }

  lemma {:induction false} JoinSplit(s: string, sep: string)
    requires |sep| > 0
    ensures Join(SplitOn(s, sep), sep) == s
    decreases |s|
  {
    var i := IndexOf(s, sep);
    if i >= 0 {
      var head, rest := s[..i], s[i + |sep|..];
      var ps := SplitOn(rest, sep);
      assert SplitOn(s, sep) == [head] + ps;
      JoinSplit(rest, sep);
      JoinCons(head, ps, sep);
      assert s[i..i + |sep|] == sep;
      assert s == head + s[i..i + |sep|] + rest;
    }
  }

  /** A piece that `sep` cannot straddle: in `p + sep`, the first occurrence
      of `sep` is the one appended. */
  predicate SeparatesCleanly(p: string, sep: string)
  {
    IndexOf(p + sep, sep) == |p|
  }

  lemma {:induction false} NoOccurrenceWhenClean(p: string, sep: string)
    requires |sep| > 0 && SeparatesCleanly(p, sep)
    ensures IndexOf(p, sep) < 0
  {
    if IndexOf(p, sep) >= 0 {
      IndexOfExtend(p, sep, sep);
    }
  }

  lemma {:induction false} SplitJoin(parts: seq<string>, sep: string)
    requires |sep| > 0 && |parts| >= 1
    requires forall p :: p in parts ==> SeparatesCleanly(p, sep)
    ensures SplitOn(Join(parts, sep), sep) == parts
    decreases |parts|
  {
    var p := parts[0];
    assert p in parts;
    if |parts| == 1 {
      NoOccurrenceWhenClean(p, sep);
      assert parts == [p];
      assert Join(parts, sep) == p;
      assert SplitOn(p, sep) == [p];
    } else {
      var rest := Join(parts[1..], sep);
      IndexOfExtend(p + sep, rest, sep);
      var s := p + sep + rest;
      assert s == (p + sep) + rest;
      assert s[..|p|] == p;
      assert s[|p| + |sep|..] == rest;
      SplitJoin(parts[1..], sep);
      assert parts == [p] + parts[1..];
    }
  }

  /** A piece free of a one-character separator separates cleanly. */
  lemma {:induction false} SeparatesCleanlyChar(p: string, c: char)
    requires c !in p
    ensures SeparatesCleanly(p, [c])
  {
    assert OccursAt(p + [c], [c], |p|);
    forall k | 0 <= k < |p|
      ensures !OccursAt(p + [c], [c], k)
    {
      assert (p + [c])[k] == p[k];
      assert (p + [c])[k..k + 1] == [p[k]];
    }
  }

  /** A piece that does not end in `c` and never holds `c` twice in a row
      separates cleanly from the two-character separator `c c`. */
  lemma {:induction false} SeparatesCleanlyPair(p: string, c: char)
    requires |p| >= 1 && p[|p| - 1] != c
    requires forall k :: 0 <= k < |p| - 1 ==> !(p[k] == c && p[k + 1] == c)
    ensures SeparatesCleanly(p, [c, c])
  {
    var q := p + [c, c];
    assert q[|p|..|p| + 2] == [c, c];
    assert OccursAt(q, [c, c], |p|);
    forall k | 0 <= k < |p|
      ensures !OccursAt(q, [c, c], k)
    {
      assert q[k] == p[k];
      assert q[k..k + 2] == [q[k], q[k + 1]];
      if k + 1 < |p| {
        assert q[k + 1] == p[k + 1];
      }
    }
  }

  /** A string of digits holds no other character. */
  lemma {:induction false} DigitsExclude(s: string, c: char)
    requires AllDigits(s) && !IsDigit(c)
    ensures c !in s
  {
    forall k | 0 <= k < |s|
      ensures s[k] != c
    {
      assert IsDigit(s[k]);
    }
  }
}
