/** The class-name list editor of the web page: the textarea's text is a
    newline-terminated list of class names, edited by one-line commands
    (`addNameToList`) and extended by importing a text file (`reader.onload`
    in `uploadClassNameFile`). */
module ClassNames {
  import opened Text

  /** ECMAScript LineTerminator. */
  predicate IsLineTerminator(c: char)
  {
    c == '\n' || c == '\r' || c == '\U{2028}' || c == '\U{2029}'
  }

  /** ECMAScript WhiteSpace or LineTerminator: what `String.prototype.trim`
      removes and what the regular-expression class `\s` matches. */
  predicate IsJsSpace(c: char)
  {
    || c == '\t' || c == '\U{B}' || c == '\U{C}' || c == ' ' || c == '\U{A0}' || c == '\U{FEFF}'
    || c == '\U{1680}' || '\U{2000}' <= c <= '\U{200A}' || c == '\U{202F}' || c == '\U{205F}'
    || c == '\U{3000}'
    || IsLineTerminator(c)
  }

  /** What `/[\r\n]+/` matches one character of. */
  predicate IsCrLf(c: char) { c == '\r' || c == '\n' }

  predicate NoCrLf(s: string) { forall i :: 0 <= i < |s| ==> !IsCrLf(s[i]) }

  function SpacesFrom(s: string, i: nat): (n: nat)
    requires i <= |s|
    ensures i <= n <= |s|
    ensures forall k :: i <= k < n ==> IsJsSpace(s[k])
    ensures n < |s| ==> !IsJsSpace(s[n])
    decreases |s| - i
  {
    if i < |s| && IsJsSpace(s[i]) then SpacesFrom(s, i + 1) else i
  }

  /** The number of white-space characters `s` starts with. */
  function LeadingSpaces(s: string): (n: nat)
    ensures n <= |s| && forall k :: 0 <= k < n ==> IsJsSpace(s[k])
    ensures n < |s| ==> !IsJsSpace(s[n])
  {
    SpacesFrom(s, 0)
  }

  function ContentBefore(s: string, j: nat): (n: nat)
    requires j <= |s|
    ensures n <= j
    ensures forall k :: n <= k < j ==> IsJsSpace(s[k])
    ensures n > 0 ==> !IsJsSpace(s[n - 1])
    decreases j
  {
    if j > 0 && IsJsSpace(s[j - 1]) then ContentBefore(s, j - 1) else j
  }

  /** One past the last character of `s` that is not white space, or 0. */
  function ContentEnd(s: string): (n: nat)
    ensures n <= |s| && forall k :: n <= k < |s| ==> IsJsSpace(s[k])
    ensures n > 0 ==> !IsJsSpace(s[n - 1])
  {
    ContentBefore(s, |s|)
  }

  /** The two properties pin `ContentEnd` down. */
  lemma {:induction false} ContentEndUnique(s: string, n: nat)
    requires n <= |s| && forall k :: n <= k < |s| ==> IsJsSpace(s[k])
    requires n > 0 ==> !IsJsSpace(s[n - 1])
    ensures ContentEnd(s) == n
  {
    var m := ContentEnd(s);
    assert n > 0 ==> n - 1 < m;
    assert m > 0 ==> m - 1 < n;
  }

  predicate Trimmed(s: string)
  {
    s == [] || (!IsJsSpace(s[0]) && !IsJsSpace(s[|s| - 1]))
  }

  /** `s.trim()`: white space cut from both ends. */
  function Trim(s: string): (r: string)
  {
    var a, b := LeadingSpaces(s), ContentEnd(s);
    if a < b then s[a..b] else ""
  }

  /** Trim cuts white space from the two ends and nothing else: the result
      is trimmed, and `s` is the result with white space around it. */
  lemma {:induction false} TrimSpec(s: string)
    ensures Trimmed(Trim(s))
    ensures exists a, b ::
      (&& 0 <= a <= b <= |s| && Trim(s) == s[a..b]
       && (forall i :: 0 <= i < a ==> IsJsSpace(s[i]))
       && (forall i :: b <= i < |s| ==> IsJsSpace(s[i])))
  {
    var a, b := LeadingSpaces(s), ContentEnd(s);
    if a < b {
      assert Trim(s)[0] == s[a];
    } else {
      assert Trim(s) == s[|s|..|s|];
    }
  }

  /** A trimmed string is left as it is. */
  lemma {:induction false} TrimTrimmed(s: string)
    requires Trimmed(s)
    ensures Trim(s) == s
  {
    if s != [] {
      ContentEndUnique(s, |s|);
    }
  }

  lemma {:induction false} TrimIdempotent(s: string)
    ensures Trim(Trim(s)) == Trim(s)
  {
    TrimSpec(s);
    TrimTrimmed(Trim(s));
  }

  /** The first position of a CR or LF, or `|s|`. */
  function BreakAt(s: string): (i: nat)
    ensures i <= |s| && NoCrLf(s[..i])
    ensures i < |s| ==> IsCrLf(s[i])
    decreases |s|
  {
    if s == [] || IsCrLf(s[0]) then 0
    else
      var j := BreakAt(s[1..]);
      assert s[..j + 1] == [s[0]] + s[1..][..j];
      j + 1
  }

  /** The end of the run of CRs and LFs that starts at `i`. */
  function RunEnd(s: string, i: nat): (j: nat)
    requires i <= |s|
    ensures i <= j <= |s|
    ensures forall k :: i <= k < j ==> IsCrLf(s[k])
    ensures j < |s| ==> !IsCrLf(s[j])
    decreases |s| - i
  {
    if i < |s| && IsCrLf(s[i]) then RunEnd(s, i + 1) else i
  }

  /** `text.split(/[\r\n]+/)`: the pieces between maximal runs of CR and LF
      characters; a run at either end leaves an empty piece there. */
  function SplitLines(s: string): (lines: seq<string>)
    ensures |lines| >= 1
    ensures forall l :: l in lines ==> NoCrLf(l)
    decreases |s|
  {
    var i := BreakAt(s);
    if i == |s| then
      assert s[..i] == s;
      [s]
    else
      [s[..i]] + SplitLines(s[RunEnd(s, i)..])
  }

  /** The runs of CR and LF characters `SplitLines` removes, in order. */
  function LineBreakRuns(s: string): seq<string>
    decreases |s|
  {
    var i := BreakAt(s);
    if i == |s| then [] else [s[i..RunEnd(s, i)]] + LineBreakRuns(s[RunEnd(s, i)..])
  }

  /** `pieces[0] + seps[0] + pieces[1] + ... + pieces[|seps|]`. */
  function Interleave(pieces: seq<string>, seps: seq<string>): string
    requires |pieces| == |seps| + 1
  {
    if seps == [] then pieces[0] else pieces[0] + seps[0] + Interleave(pieces[1..], seps[1..])
  }

  /** One step of the split: the piece before the first run, the run, and
      the split of the text after it. */
  lemma {:induction false} SplitLinesUnfold(s: string)
    requires BreakAt(s) < |s|
    ensures var i := BreakAt(s); var j := RunEnd(s, i);
      && i < j
      && SplitLines(s) == [s[..i]] + SplitLines(s[j..])
      && LineBreakRuns(s) == [s[i..j]] + LineBreakRuns(s[j..])
      && LineBreaks(s[i..j])
      && (j < |s| ==> !IsCrLf(s[j]))
  {
  }

  /** A line split loses only the line breaks: the pieces with the removed
      runs put back between them are the text again, and each run is a
      non-empty string of CR and LF. */
  lemma {:induction false} SplitLinesRebuild(s: string)
    ensures |SplitLines(s)| == |LineBreakRuns(s)| + 1
    ensures Interleave(SplitLines(s), LineBreakRuns(s)) == s
    ensures forall r :: r in LineBreakRuns(s) ==> LineBreaks(r)
    decreases |s|
  {
    var i := BreakAt(s);
    if i == |s| {
      assert s[..i] == s;
    } else {
      SplitLinesUnfold(s);
      var j := RunEnd(s, i);
      var t := s[j..];
      var lines, runs := SplitLines(s), LineBreakRuns(s);
      SplitLinesRebuild(t);
      assert lines[1..] == SplitLines(t) && runs[1..] == LineBreakRuns(t);
      calc {
        Interleave(lines, runs);
        lines[0] + runs[0] + Interleave(lines[1..], runs[1..]);
        s[..i] + s[i..j] + t;
        { SliceThree(s, i, j); }
        s;
      }
    }
  }

  /** Every piece but the first and the last is non-empty, so two runs
      never touch: each run is as long as it can be. */
  lemma {:induction false} SplitLinesInterior(s: string)
    ensures forall k :: 0 < k < |SplitLines(s)| - 1 ==> |SplitLines(s)[k]| > 0
    decreases |s|
  {
    var i := BreakAt(s);
    if i < |s| {
      SplitLinesUnfold(s);
      var t := s[RunEnd(s, i)..];
      var lines := SplitLines(s);
      SplitLinesInterior(t);
      assert lines[1..] == SplitLines(t);
      if |lines| > 2 {
        assert BreakAt(t) < |t|;
        assert !IsCrLf(t[0]);
        assert |SplitLines(t)[0]| > 0;
      }
    }
  }

  /** `l.length && ";[".indexOf(l.charAt(0)) < 0`: not blank, not an INI
      comment, not a section header. */
  predicate Kept(l: string)
  {
    |l| > 0 && l[0] != ';' && l[0] != '['
  }

  function TrimAll(lines: seq<string>): (r: seq<string>)
    ensures |r| == |lines| && forall i :: 0 <= i < |lines| ==> r[i] == Trim(lines[i])
  {
    if lines == [] then [] else [Trim(lines[0])] + TrimAll(lines[1..])
  }

  /** `lines.filter(Kept)`: exactly the kept lines, in their order. */
  function KeepAll(lines: seq<string>): (r: seq<string>)
    ensures forall l :: l in r <==> l in lines && Kept(l)
  {
    if lines == [] then []
    else if Kept(lines[0]) then [lines[0]] + KeepAll(lines[1..])
    else KeepAll(lines[1..])
  }

  /** Filtering a concatenation filters each part; with the one-line cases
      this fixes the order of the kept lines. */
  lemma {:induction false} KeepAllAppend(a: seq<string>, b: seq<string>)
    ensures KeepAll(a + b) == KeepAll(a) + KeepAll(b)
    decreases |a|
  {
    if a != [] {
      AppendAfterHead(a, b);
      KeepAllAppend(a[1..], b);
    } else {
      assert a + b == b;
    }
  }

  /** The names `reader.onload` takes from an imported file. */
  function ImportedNames(text: string): seq<string>
  {
    KeepAll(TrimAll(SplitLines(text)))
  }

  /** A name fit to stand on its own line of the list. */
  predicate CleanName(n: string)
  {
    Kept(n) && Trimmed(n) && NoCrLf(n)
  }

  /** Trimming keeps a piece of its input, so it adds no line break. */
  lemma {:induction false} TrimNoCrLf(s: string)
    requires NoCrLf(s)
    ensures NoCrLf(Trim(s))
  {
    TrimSpec(s);
  }

  /** Every imported name is non-blank, trimmed, free of line breaks and
      not a comment or section line. */
  lemma {:induction false} ImportedNamesClean(text: string)
    ensures forall n :: n in ImportedNames(text) ==> CleanName(n)
  {
    var lines := SplitLines(text);
    var trimmed := TrimAll(lines);
    forall n | n in trimmed
      ensures Trimmed(n) && NoCrLf(n)
    {
      var i :| 0 <= i < |trimmed| && trimmed[i] == n;
      assert lines[i] in lines;
      TrimSpec(lines[i]);
      TrimNoCrLf(lines[i]);
    }
  }

  /** A separator made of line breaks only. */
  predicate LineBreaks(sep: string)
  {
    |sep| > 0 && forall i :: 0 <= i < |sep| ==> IsCrLf(sep[i])
  }

  lemma {:induction false} SplitLinesJoin(names: seq<string>, sep: string)
    requires |names| >= 1 && LineBreaks(sep)
    requires forall n :: n in names ==> |n| > 0 && NoCrLf(n)
    ensures SplitLines(Join(names, sep)) == names
    decreases |names|
  {
    var n := names[0];
    assert n in names;
    if |names| == 1 {
      assert Join(names, sep) == n;
      assert BreakAt(n) == |n|;
    } else {
      var rest := Join(names[1..], sep);
      assert Join(names, sep) == n + sep + rest;
      JoinStartsWith(names[1..], sep);
      assert names[1..][0] in names;
      SplitLinesStep(n, sep, rest);
      SplitLinesJoin(names[1..], sep);
      assert names == [n] + names[1..];
    }
  }

  /** A join starts with its first part. */
  lemma {:induction false} JoinStartsWith(parts: seq<string>, sep: string)
    requires |parts| >= 1
    ensures |Join(parts, sep)| >= |parts[0]| && Join(parts, sep)[..|parts[0]|] == parts[0]
  {
    if |parts| > 1 {
      assert Join(parts, sep) == parts[0] + (sep + Join(parts[1..], sep));
    }
  }

  /** One line, a run of line breaks, and text that does not start with a
      line break: the line is split off. */
  lemma {:induction false} SplitLinesStep(n: string, sep: string, rest: string)
    requires NoCrLf(n) && LineBreaks(sep) && |rest| > 0 && !IsCrLf(rest[0])
    ensures SplitLines(n + sep + rest) == [n] + SplitLines(rest)
  {
    var s := n + sep + rest;
    assert s == n + (sep + rest);
    BreakAtPrefix(n, sep + rest);
    RunEndAfter(s, |n|, |sep|);
    assert s[..|n|] == n;
    assert s[|n| + |sep|..] == rest;
  }

  lemma {:induction false} BreakAtPrefix(n: string, t: string)
    requires NoCrLf(n) && |t| > 0 && IsCrLf(t[0])
    ensures BreakAt(n + t) == |n|
  {
    var s := n + t;
    assert s[|n|] == t[0];
    assert forall k :: 0 <= k < |n| ==> s[k] == n[k];
  }

  lemma {:induction false} RunEndAfter(s: string, i: nat, k: nat)
    requires i + k < |s| && !IsCrLf(s[i + k])
    requires forall j :: i <= j < i + k ==> IsCrLf(s[j])
    ensures RunEnd(s, i) == i + k
    decreases k
  {
    if k > 0 {
      RunEndAfter(s, i + 1, k - 1);
    }
  }

  lemma {:induction false} KeepAllKept(lines: seq<string>)
    requires forall l :: l in lines ==> Kept(l)
    ensures KeepAll(lines) == lines
    decreases |lines|
  {
    if lines != [] {
      assert lines[0] in lines;
      KeepAllKept(lines[1..]);
      assert lines == [lines[0]] + lines[1..];
    }
  }

  /** Names separated by line breaks (LF, CR LF or any run of CR and LF),
      with no break after the last, import back as exactly those names. */
  lemma {:induction false} ImportedNamesOfJoin(names: seq<string>, sep: string)
    requires LineBreaks(sep)
    requires forall n :: n in names ==> CleanName(n)
    ensures ImportedNames(Join(names, sep)) == names
  {
    if names == [] {
      assert SplitLines("") == [""];
    } else {
      SplitLinesJoin(names, sep);
      forall i | 0 <= i < |names|
        ensures Trim(names[i]) == names[i]
      {
        assert names[i] in names;
        TrimTrimmed(names[i]);
      }
      assert TrimAll(names) == names;
      KeepAllKept(names);
    }
  }

  /** A run of line breaks from `i` to the end is one run. */
  lemma {:induction false} RunEndToEnd(s: string, i: nat)
    requires i <= |s| && forall j :: i <= j < |s| ==> IsCrLf(s[j])
    ensures RunEnd(s, i) == |s|
    decreases |s| - i
  {
    if i < |s| {
      RunEndToEnd(s, i + 1);
    }
  }

  /** A text of line breaks only is two empty pieces. */
  lemma {:induction false} SplitLinesBreaks(sep: string)
    requires LineBreaks(sep)
    ensures SplitLines(sep) == ["", ""]
  {
    assert BreakAt(sep) == 0;
    RunEndToEnd(sep, 0);
    assert sep[|sep|..] == "";
  }

  /** Lines each ended by the same line break split into those lines and a
      final empty piece. */
  lemma {:induction false} SplitLinesTerminated(names: seq<string>, sep: string)
    requires |names| >= 1 && LineBreaks(sep)
    requires forall n :: n in names ==> |n| > 0 && NoCrLf(n)
    ensures SplitLines(Join(names, sep) + sep) == names + [""]
    decreases |names|
  {
    var n := names[0];
    assert n in names;
    if |names| == 1 {
      var s := n + sep;
      assert Join(names, sep) == n;
      BreakAtPrefix(n, sep);
      RunEndToEnd(s, |n|);
      assert s[..|n|] == n && s[|s|..] == "";
    } else {
      var rest := Join(names[1..], sep) + sep;
      assert Join(names, sep) + sep == n + sep + rest;
      JoinStartsWith(names[1..], sep);
      assert names[1..][0] in names;
      assert rest[0] == names[1..][0][0];
      SplitLinesStep(n, sep, rest);
      SplitLinesTerminated(names[1..], sep);
      AppendAfterHead(names, [""]);
    }
  }

  /** Names written one per line, each line ended by LF or CR LF (the way
      the list itself is kept), import back as exactly those names. */
  lemma {:induction false} ImportedNamesOfLines(names: seq<string>, sep: string)
    requires LineBreaks(sep)
    requires forall n :: n in names ==> CleanName(n)
    ensures ImportedNames(Join(names, sep) + sep) == names
  {
    assert Trim("") == "";
    if names == [] {
      assert Join(names, sep) + sep == sep;
      SplitLinesBreaks(sep);
      assert TrimAll(["", ""]) == ["", ""];
    } else {
      SplitLinesTerminated(names, sep);
      forall i | 0 <= i < |names|
        ensures Trim(names[i]) == names[i]
      {
        assert names[i] in names;
        TrimTrimmed(names[i]);
      }
      assert TrimAll(names + [""]) == names + [""];
      KeepAllAppend(names, [""]);
      KeepAllKept(names);
    }
  }

  // The list text and the commands of `addNameToList`.

  /** A list holding `names`, each on its own newline-terminated line. */
  function ListText(names: seq<string>): string
  {
    if names == [] then "" else Join(names, "\n") + "\n"
  }

  /** `s.slice(0, ci) + s.slice(ci + pat.length)` at the first occurrence
      `ci = s.indexOf(pat)`, or `s` unchanged when there is none. */
  function RemoveFirst(s: string, pat: string): (r: string)
    ensures (forall k :: !OccursAt(s, pat, k)) ==> r == s
    ensures forall i ::
      OccursAt(s, pat, i) && (forall k :: 0 <= k < i ==> !OccursAt(s, pat, k)) ==> r == s[..i] + s[i + |pat|..]
  {
    var i := IndexOf(s, pat);
    if i >= 0 then s[..i] + s[i + |pat|..] else s
  }

  /** The name a plain or `>` command appends. */
  function AppendedName(cmd: string): string
    requires |cmd| > 0
  {
    if cmd[0] == '>' then cmd[1..] else cmd
  }

  /** The list after `addNameToList(cmd)`, reading the list's current text
      for the `<` command. */
  function Edited(list: string, cmd: string): string
  {
    if |cmd| == 0 then list
    else if cmd[0] == '<' then cmd[1..] + "\n" + list
    else if cmd[0] == '-' then RemoveFirst(list, cmd[1..] + "\n")
    else list + AppendedName(cmd) + "\n"
  }

  /** `addNameToList(cmd)` as written: `<` puts the name in front of the
      element's `innerText`, which for a textarea is its original content,
      not the text shown. */
  function EditedAsWritten(value: string, innerText: string, cmd: string): string
  {
    if |cmd| > 0 && cmd[0] == '<' then cmd[1..] + "\n" + innerText
    else Edited(value, cmd)
  }

  /** `<` then `-` of the same name gives the list back. */
  lemma {:induction false} DeleteUndoesPrepend(list: string, name: string)
    ensures Edited(Edited(list, "<" + name), "-" + name) == list
  {
    var pat := name + "\n";
    var s := Edited(list, "<" + name);
    assert ("<" + name)[1..] == name && ("-" + name)[1..] == name;
    assert s == pat + list;
    assert OccursAt(s, pat, 0) by {
      assert s[..|pat|] == pat;
    }
    assert s[|pat|..] == list;
  }

  /** `>` then `-` of the same name gives the list back, provided the name's
      line is not found earlier in the list. */
  lemma {:induction false} DeleteUndoesAppend(list: string, name: string)
    requires SeparatesCleanly(list, name + "\n")
    ensures Edited(Edited(list, ">" + name), "-" + name) == list
  {
    var pat := name + "\n";
    var s := Edited(list, ">" + name);
    assert (">" + name)[1..] == name && ("-" + name)[1..] == name;
    assert s == list + pat;
    IndexOfExtend(list + pat, [], pat);
    assert s + [] == s;
    assert s[..|list|] == list;
    assert |s[|list| + |pat|..]| == 0;
  }

  /** `<` adds a first line and `>` a last line to a list of names. */
  lemma {:induction false} EditsAddLines(names: seq<string>, name: string)
    ensures Edited(ListText(names), "<" + name) == ListText([name] + names)
    ensures Edited(ListText(names), ">" + name) == ListText(names + [name])
  {
    assert ("<" + name)[1..] == name && (">" + name)[1..] == name;
    if names != [] {
      JoinCons(name, names, "\n");
      JoinSnoc(names, name, "\n");
    }
  }

  lemma {:induction false} JoinSnoc(parts: seq<string>, p: string, sep: string)
    requires |parts| >= 1
    ensures Join(parts + [p], sep) == Join(parts, sep) + sep + p
  {
    JoinAppend(parts, [p], sep);
  }

  lemma {:induction false} JoinAppend(a: seq<string>, b: seq<string>, sep: string)
    requires |a| >= 1 && |b| >= 1
    ensures Join(a + b, sep) == Join(a, sep) + sep + Join(b, sep)
    decreases |a|
  {
    if |a| == 1 {
      JoinCons(a[0], b, sep);
      assert a + b == [a[0]] + b;
    } else {
      JoinAppend(a[1..], b, sep);
      assert (a + b)[1..] == a[1..] + b;
    }
  }

  /** Deletion matches text, not whole lines: "-ob" takes the end of the
      line "bob". */
  lemma {:induction false} DeleteMatchesInsideLine()
    ensures Edited("bob\n", "-ob") == "b"
  {
    var pat := "ob\n";
    assert "-ob"[1..] + "\n" == pat;
    assert "bob\n"[0..3][0] == 'b' != pat[0];
    assert OccursAt("bob\n", pat, 1);
  }

  /** As written, `<` discards the names typed or added since the page was
      loaded. */
  lemma {:induction false} PrependReadsInnerText()
    ensures EditedAsWritten("Alice\n", "", "<Bob") == "Bob\n"
    ensures Edited("Alice\n", "<Bob") == "Bob\nAlice\n"
  {
  }

  // Merging an import into the list.

  /** Line 92-95 given the trimmed current list `t`. */
  function MergeTrimmed(t: string, names: seq<string>): string
  {
    (if |t| > 0 then t + "\n" else "") + Join(names, "\n") + "\n"
  }

  /** `.replace(/^\s*(.+)/, "$1")`: `\s*` followed by at least one character
      that is not a line terminator (`.`), with `\s*` as long as possible. */
  predicate LeadingMatchAt(s: string, k: int)
  {
    0 <= k < |s| && (forall i :: 0 <= i < k ==> IsJsSpace(s[i])) && !IsLineTerminator(s[k])
  }

  function GreedyLeading(s: string, k: int): (r: int)
    requires -1 <= k < |s|
    ensures -1 <= r <= k && (r >= 0 ==> LeadingMatchAt(s, r))
    ensures forall j :: r < j <= k ==> !LeadingMatchAt(s, j)
    decreases k + 1
  {
    if k < 0 then -1 else if LeadingMatchAt(s, k) then k else GreedyLeading(s, k - 1)
  }

  function LeadingTrimAsWritten(s: string): string
  {
    var k := GreedyLeading(s, |s| - 1);
    if k < 0 then s else s[k..]
  }

  /** `.replace(/(.+\S)\s*$/, "$1")` matching `s[p..]`: at least one
      character that is not a line terminator, then one that is not white
      space at `q - 1`, then only white space to the end. */
  predicate TrailingMatch(s: string, p: int, q: int)
  {
    && 0 <= p && p + 2 <= q <= |s|
    && (forall i :: p <= i < q ==> !IsLineTerminator(s[i]))
    && !IsJsSpace(s[q - 1])
    && (forall i :: q <= i < |s| ==> IsJsSpace(s[i]))
  }

  /** Whichever match the engine picks, the replacement keeps `s[..q]`, and
      `q` is always `ContentEnd(s)`. */
  function TrailingTrimAsWritten(s: string): string
  {
    if exists p, q | 0 <= p <= |s| && 0 <= q <= |s| :: TrailingMatch(s, p, q)
    then s[..ContentEnd(s)]
    else s
  }

  lemma {:induction false} TrailingMatchEnd(s: string, p: int, q: int)
    requires TrailingMatch(s, p, q)
    ensures q == ContentEnd(s)
  {
    ContentEndUnique(s, q);
  }

  /** The regular expression matches exactly when the last non-blank
      character has a character before it on the same line. */
  lemma {:induction false} TrailingMatchIff(s: string)
    ensures (exists p, q | 0 <= p <= |s| && 0 <= q <= |s| :: TrailingMatch(s, p, q))
      <==> (ContentEnd(s) >= 2 && !IsLineTerminator(s[ContentEnd(s) - 2]))
  {
    var q := ContentEnd(s);
    if exists p, q' | 0 <= p <= |s| && 0 <= q' <= |s| :: TrailingMatch(s, p, q') {
      var p, q' :| 0 <= p <= |s| && 0 <= q' <= |s| && TrailingMatch(s, p, q');
      TrailingMatchEnd(s, p, q');
      assert p <= q - 2;
    }
    if q >= 2 && !IsLineTerminator(s[q - 2]) {
      assert !IsLineTerminator(s[q - 1]);
      assert TrailingMatch(s, q - 2, q);
    }
  }

  /** Line 91 as written. */
  function ListTrimAsWritten(s: string): string
  {
    TrailingTrimAsWritten(LeadingTrimAsWritten(s))
  }

  /** Line 89-95 as written. */
  function MergedAsWritten(current: string, names: seq<string>): string
  {
    MergeTrimmed(ListTrimAsWritten(current), names)
  }

  /** Line 89-95 with `trim()` for the whitespace removal line 91 intends. */
  function Merged(current: string, names: seq<string>): (r: string)
    ensures |r| > 0 && r[|r| - 1] == '\n'
  {
    MergeTrimmed(Trim(current), names)
  }

  lemma {:induction false} LeadingTrimAsWrittenAgrees(s: string)
    requires LeadingSpaces(s) < |s|
    ensures LeadingTrimAsWritten(s) == s[LeadingSpaces(s)..]
  {
    var a := LeadingSpaces(s);
    assert LeadingMatchAt(s, a);
    var k := GreedyLeading(s, |s| - 1);
    assert k >= a;
    assert k == a;
  }

  lemma {:induction false} TrailingTrimAsWrittenAgrees(u: string)
    requires ContentEnd(u) >= 2 && !IsLineTerminator(u[ContentEnd(u) - 2])
    ensures TrailingTrimAsWritten(u) == u[..ContentEnd(u)]
  {
    TrailingMatchIff(u);
  }

  /** The two regular expressions do trim whenever the list has a
      non-blank character and its last one is not alone on its line. */
  lemma {:induction false} ListTrimAsWrittenAgrees(s: string)
    requires |Trim(s)| >= 2 && !IsLineTerminator(Trim(s)[|Trim(s)| - 2])
    ensures ListTrimAsWritten(s) == Trim(s)
  {
    var a, b := LeadingSpaces(s), ContentEnd(s);
    assert Trim(s) == s[a..b];
    var u := s[a..];
    ContentEndSuffix(s, a);
    assert u[b - a - 2] == s[b - 2];
    calc {
      ListTrimAsWritten(s);
      TrailingTrimAsWritten(LeadingTrimAsWritten(s));
      { LeadingTrimAsWrittenAgrees(s); }
      TrailingTrimAsWritten(u);
      { TrailingTrimAsWrittenAgrees(u); }
      u[..b - a];
      s[a..b];
    }
  }

  /** Cutting a prefix before the content's end moves the end with it. */
  lemma {:induction false} ContentEndSuffix(s: string, a: nat)
    requires a < ContentEnd(s)
    ensures ContentEnd(s[a..]) == ContentEnd(s) - a
  {
    var b, u := ContentEnd(s), s[a..];
    forall k | b - a <= k < |u|
      ensures IsJsSpace(u[k])
    {
      assert u[k] == s[a + k];
    }
    assert u[b - a - 1] == s[b - 1];
    ContentEndUnique(u, b - a);
  }

  lemma {:induction false} OneCharLastLineTrim()
    ensures ListTrimAsWritten("a\nb\n") == "a\nb\n"
  {
    var s := "a\nb\n";
    assert LeadingMatchAt(s, 0);
    assert !LeadingMatchAt(s, 1) && !LeadingMatchAt(s, 2) && !LeadingMatchAt(s, 3);
    assert GreedyLeading(s, 3) == 0;
    assert LeadingTrimAsWritten(s) == s;
    ContentEndUnique(s, 3);
    TrailingMatchIff(s);
  }

  /** As written, a list whose last line is one character keeps its final
      line break, and the import starts after a blank line. */
  lemma {:induction false} OneCharLastLineAsWritten()
    ensures ListTrimAsWritten("a\nb\n") == "a\nb\n"
    ensures MergedAsWritten("a\nb\n", ["c"]) == "a\nb\n\nc\n"
    ensures Merged("a\nb\n", ["c"]) == "a\nb\nc\n"
  {
    OneCharLastLineTrim();
    assert Join(["c"], "\n") == "c";
    ContentEndUnique("a\nb\n", 3);
    assert LeadingSpaces("a\nb\n") == 0;
    assert Trim("a\nb\n") == "a\nb";
  }

  /** A trimmed, non-blank text followed by white space trims to itself. */
  lemma {:induction false} TrimTrailingSpace(j: string, tail: string)
    requires |j| > 0 && Trimmed(j)
    requires forall k :: 0 <= k < |tail| ==> IsJsSpace(tail[k])
    ensures Trim(j + tail) == j
  {
    var s := j + tail;
    assert s[0] == j[0] && s[|j| - 1] == j[|j| - 1];
    assert LeadingSpaces(s) == 0;
    forall k | |j| <= k < |s|
      ensures IsJsSpace(s[k])
    {
      assert s[k] == tail[k - |j|];
    }
    ContentEndUnique(s, |j|);
    assert s[0..|j|] == j;
  }

  /** The lines of a list without the final line break are trimmed. */
  lemma {:induction false} JoinTrimmed(names: seq<string>)
    requires |names| >= 1 && forall n :: n in names ==> CleanName(n)
    ensures |Join(names, "\n")| > 0 && Trimmed(Join(names, "\n"))
  {
    var j := Join(names, "\n");
    JoinStartsWith(names, "\n");
    JoinEndsWith(names, "\n");
    var first, last := names[0], names[|names| - 1];
    assert first in names && last in names;
    assert j[0] == first[0];
    assert j[|j| - 1] == last[|last| - 1];
  }

  lemma {:induction false} TrimList(names: seq<string>)
    requires |names| >= 1 && forall n :: n in names ==> CleanName(n)
    ensures Trim(ListText(names)) == Join(names, "\n")
  {
    JoinTrimmed(names);
    TrimTrailingSpace(Join(names, "\n"), "\n");
  }

  /** A join ends with its last part. */
  lemma {:induction false} JoinEndsWith(parts: seq<string>, sep: string)
    requires |parts| >= 1
    ensures var j, p := Join(parts, sep), parts[|parts| - 1];
      |j| >= |p| && j[|j| - |p|..] == p
    decreases |parts|
  {
    if |parts| > 1 {
      JoinEndsWith(parts[1..], sep);
      assert parts[1..][|parts[1..]| - 1] == parts[|parts| - 1];
    }
  }

  /** Importing names into a list of names appends them as new lines. */
  lemma {:induction false} MergedAppends(current: seq<string>, names: seq<string>)
    requires |names| >= 1
    requires forall n :: n in current ==> CleanName(n)
    ensures Merged(ListText(current), names) == ListText(current + names)
  {
    if current == [] {
      assert current + names == names;
      assert Trim("") == "";
    } else {
      TrimList(current);
      JoinAppend(current, names, "\n");
      var t := Trim(ListText(current));
      JoinStartsWith(current, "\n");
      assert current[0] in current;
      assert |t| > 0;
      assert MergeTrimmed(t, names) == t + "\n" + Join(names, "\n") + "\n";
    }
  }

  /** A file with no names still adds an empty line. */
  lemma {:induction false} MergedNothing(current: seq<string>)
    requires |current| >= 1
    requires forall n :: n in current ==> CleanName(n)
    ensures Merged(ListText(current), []) == ListText(current) + "\n"
  {
    TrimList(current);
    var t := Trim(ListText(current));
    JoinStartsWith(current, "\n");
    assert current[0] in current;
    assert |t| > 0;
    assert Join([], "\n") == "";
    assert MergeTrimmed(t, []) == t + "\n" + "" + "\n";
  }

  /** The textarea `#class-names-list`. Assigning `value` leaves the
      element's original text, which `innerText` reads, as it was. */
  class ClassNamesList {
    var value: string
    const innerText: string

    constructor (text: string)
      ensures value == text && innerText == text
    {
      value, innerText := text, text;
    }

    /** `addNameToList(className)`, with `<` reading the current text. */
    method AddName(className: string)
      modifies this
      ensures value == Edited(old(value), className)
    {
      if |className| > 0 {
        if className[0] == '<' {
          var name := className[1..];
          value := name + "\n" + value;
        } else if className[0] == '-' {
          var pat := className[1..] + "\n";
          var cl := value;
          var ci := IndexOf(cl, pat);
          if ci >= 0 {
            value := cl[..ci] + cl[ci + |pat|..];
          }
        } else {
          var name := className;
          if name[0] == '>' {
            name := name[1..];
          }
          value := value + name + "\n";
        }
      }
    }

    /** The body of `reader.onload` for a file read as `fileText`; returns
        the imported names, as the handler does. The current list is
        trimmed with `trim()`, which line 91's two regular expressions
        intend; they do the same whenever the trimmed list ends with two
        characters of one line (the last `ensures`), and
        `OneCharLastLineAsWritten` shows a list where they differ. */
    method Import(fileText: string) returns (names: seq<string>)
      modifies this
      ensures names == ImportedNames(fileText)
      ensures value == Merged(old(value), names)
      ensures var t := Trim(old(value));
        |t| >= 2 && !IsLineTerminator(t[|t| - 2]) ==> value == MergedAsWritten(old(value), names)
    {
      if |Trim(value)| >= 2 && !IsLineTerminator(Trim(value)[|Trim(value)| - 2]) {
        ListTrimAsWrittenAgrees(value);
      }
      var lines := SplitLines(fileText);
      var trimmed := TrimAll(lines);
      names := KeepAll(trimmed);
      var currentList := Trim(value);
      if |currentList| > 0 {
        currentList := currentList + "\n";
      }
      value := currentList + Join(names, "\n") + "\n";
    }
  }
}
