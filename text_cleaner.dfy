/** `clean_text` of FakeNewsExam/src/dataprocessing/data_loader.py: an
    encoding repair, an ordered list of literal replacements, every run of
    non-ASCII characters turned into one space, whitespace collapsed and the
    ends trimmed. Non-strings (a missing cell) pass through untouched. */
module TextCleaner {
  import opened PyStrings

  newtype byte = x: int | 0 <= x < 256

  datatype Option<T> = None | Some(value: T)

  /** A table cell as the CSV reader yields it for a text column: a string or
      a missing value (NaN). */
  datatype Cell = Str(s: string) | Missing

  /** The outcome of cleaning. `UnicodeDecodeError` is not caught by the
      source and propagates to the caller. */
  datatype Result<T> = Ok(value: T) | UnicodeDecodeError

  /** The UTF-8 decoder is outside this model: any function from bytes to a
      string that may fail. */
  type Utf8Decoder = seq<byte> -> Option<string>

  predicate IsAscii(c: char) { c as int < 128 }

  predicate NonAscii(c: char) { !IsAscii(c) }

  predicate AllAscii(s: string) { forall i :: 0 <= i < |s| ==> IsAscii(s[i]) }

  /** `s.encode("latin1")`: fails exactly when some character is above
      U+00FF; otherwise one byte per character, equal to its code. */
  function Latin1Encode(s: string): (r: Option<seq<byte>>)
    ensures r.Some? <==> forall i :: 0 <= i < |s| ==> s[i] as int < 256
    ensures r.Some? ==> |r.value| == |s| && forall i :: 0 <= i < |s| ==> r.value[i] as int == s[i] as int
  {
    if forall i :: 0 <= i < |s| ==> s[i] as int < 256
    then Some(seq(|s|, i requires 0 <= i < |s| => s[i] as int as byte))
    else None
  }

  /** What every UTF-8 decoder does: bytes below 0x80 decode to the
      characters with those codes. */
  ghost predicate AsciiTransparent(utf8: Utf8Decoder) {
    forall s :: AllAscii(s) ==> Latin1Encode(s).Some? && utf8(Latin1Encode(s).value) == Some(s)
  }

  /** Lines 14-18: reinterpret the text as latin-1 bytes and decode them as
      UTF-8; an encoding failure keeps the text, a decoding failure
      propagates. */
  function Repair(s: string, utf8: Utf8Decoder): (r: Result<string>)
    ensures Latin1Encode(s).None? ==> r == Ok(s)
    ensures Latin1Encode(s).Some? ==>
              (r.Ok? <==> utf8(Latin1Encode(s).value).Some?)
              && (r.Ok? ==> r.value == utf8(Latin1Encode(s).value).value)
  {
    match Latin1Encode(s)
    case None => Ok(s)
    case Some(b) =>
      match utf8(b)
      case None => UnicodeDecodeError
      case Some(t) => Ok(t)
  }

  // ---------------------------------------------------------------------------
  // Literal replacement, `str.replace(pat, rep)`

  predicate MatchAt(s: string, pat: string, k: nat) {
    k + |pat| <= |s| && s[k..k + |pat|] == pat
  }

  ghost predicate Contains(s: string, pat: string) {
    exists k: nat :: MatchAt(s, pat, k)
  }

  /** `s.replace(pat, rep)`: every non-overlapping occurrence of `pat`, found
      left to right, is replaced by `rep`. */
  function ReplaceAll(s: string, pat: string, rep: string): string
    requires pat != []
    decreases |s|
  {
    if s == [] then []
    else if pat <= s then rep + ReplaceAll(s[|pat|..], pat, rep)
    else [s[0]] + ReplaceAll(s[1..], pat, rep)
  }

  /** A string that does not contain the pattern is left as it is. */
  lemma {:induction false} ReplaceAllNoMatch(s: string, pat: string, rep: string)
    requires pat != []
    requires !Contains(s, pat)
    ensures ReplaceAll(s, pat, rep) == s
    decreases |s|
  {
    if s != [] {
      if pat <= s {
        assert MatchAt(s, pat, 0);
      }
      forall k: nat | MatchAt(s[1..], pat, k) ensures MatchAt(s, pat, k + 1) {
        assert s[k + 1..k + 1 + |pat|] == s[1..][k..k + |pat|];
      }
      ReplaceAllNoMatch(s[1..], pat, rep);
    }
  }

  /** An occurrence of the pattern, with no earlier occurrence ending
      inside it, becomes the replacement; the text before it is kept and
      the text after it is replaced on its own. */
  lemma {:induction false} ReplaceAllOccurrence(a: string, pat: string, rep: string, b: string)
    requires pat != [] && !Contains(a + pat[..|pat| - 1], pat)
    ensures ReplaceAll(a + pat + b, pat, rep) == a + rep + ReplaceAll(b, pat, rep)
    decreases |a|
  {
    if a == [] {
      ReplaceAllAtFront(pat, rep, b);
      assert a + pat + b == pat + b && a + rep + ReplaceAll(b, pat, rep) == rep + ReplaceAll(b, pat, rep);
    } else {
      OccurrenceShape(a, pat, b);
      TailNoMatch(a[0], a[1..] + pat[..|pat| - 1], pat);
      ReplaceAllOccurrence(a[1..], pat, rep, b);
      ReplaceAllKeepsHead(a + pat + b, pat, rep);
      ConsRegroup(a, rep, ReplaceAll(b, pat, rep));
    }
  }

  /** A text that starts with the pattern starts its result with the
      replacement. */
  lemma ReplaceAllAtFront(pat: string, rep: string, b: string)
    requires pat != []
    ensures ReplaceAll(pat + b, pat, rep) == rep + ReplaceAll(b, pat, rep)
  {
    assert pat <= pat + b && (pat + b)[|pat|..] == b;
  }

  /** A text that does not start with the pattern keeps its first
      character. */
  lemma ReplaceAllKeepsHead(s: string, pat: string, rep: string)
    requires pat != [] && s != [] && !(pat <= s)
    ensures ReplaceAll(s, pat, rep) == [s[0]] + ReplaceAll(s[1..], pat, rep)
  {
  }

  /** How `a + pat + b` splits once `a` is not empty. */
  lemma OccurrenceShape(a: string, pat: string, b: string)
    requires a != [] && pat != []
    ensures (a + pat + b)[0] == a[0] && (a + pat + b)[1..] == a[1..] + pat + b
    ensures a + pat[..|pat| - 1] == [a[0]] + (a[1..] + pat[..|pat| - 1])
    ensures pat <= a + pat + b ==> MatchAt(a + pat[..|pat| - 1], pat, 0)
  {
    var w := a + pat[..|pat| - 1];
    var s := a + pat + b;
    assert s == w + pat[|pat| - 1..] + b;
    if pat <= s {
      assert w[..|pat|] == s[..|pat|];
    }
  }

  lemma ConsRegroup(a: string, rep: string, r: string)
    requires a != []
    ensures [a[0]] + (a[1..] + rep + r) == a + rep + r
  {
    assert a == [a[0]] + a[1..];
  }

  /** Dropping the first character cannot create an occurrence. */
  lemma TailNoMatch(c: char, u: string, pat: string)
    requires !Contains([c] + u, pat)
    ensures !Contains(u, pat)
  {
    forall k: nat | MatchAt(u, pat, k) ensures MatchAt([c] + u, pat, k + 1) {
      assert ([c] + u)[k + 1..k + 1 + |pat|] == u[k..k + |pat|];
    }
  }

  /** The replacement shares no character with the pattern, and cannot glue
      two pieces of the text together unless the pattern is one character. */
  predicate SafeReplacement(pat: string, rep: string) {
    pat != [] && (|pat| == 1 || rep != [])
    && forall i, j :: 0 <= i < |rep| && 0 <= j < |pat| ==> rep[i] != pat[j]
  }

  /** A suffix of the pattern that starts the result of a replacement
      already started the text. */
  lemma {:induction false} ReplaceAllKeepsPrefix(t: string, pat: string, rep: string, j: nat)
    requires SafeReplacement(pat, rep) && |pat| > 1 && 0 < j <= |pat|
    ensures pat[j..] <= ReplaceAll(t, pat, rep) ==> pat[j..] <= t
    decreases |t|
  {
    if j < |pat| && t != [] {
      var u := pat[j..];
      assert u == [pat[j]] + pat[j + 1..];
      if pat <= t {
        var r := ReplaceAll(t[|pat|..], pat, rep);
        assert ReplaceAll(t, pat, rep) == rep + r;
        assert rep[0] != pat[j];
        assert (rep + r)[0] == rep[0];
      } else {
        var r := ReplaceAll(t[1..], pat, rep);
        assert ReplaceAll(t, pat, rep) == [t[0]] + r;
        if u <= [t[0]] + r {
          assert pat[j] == t[0];
          assert pat[j + 1..] <= r;
          ReplaceAllKeepsPrefix(t[1..], pat, rep, j + 1);
          assert t == [t[0]] + t[1..];
        }
      }
    }
  }

  /** After a safe replacement no occurrence of the pattern remains. */
  lemma {:induction false} ReplaceAllRemoves(s: string, pat: string, rep: string)
    requires SafeReplacement(pat, rep)
    ensures !Contains(ReplaceAll(s, pat, rep), pat)
    decreases |s|
  {
    if s != [] {
      if pat <= s {
        ReplaceAllRemoves(s[|pat|..], pat, rep);
        SafePrefixNoMatch(rep, ReplaceAll(s[|pat|..], pat, rep), pat);
      } else {
        var rest := ReplaceAll(s[1..], pat, rep);
        ReplaceAllRemoves(s[1..], pat, rep);
        var r := [s[0]] + rest;
        assert r[0] == s[0] && r[1..] == rest;
        if |pat| > 1 {
          ReplaceAllKeepsPrefix(s[1..], pat, rep, 1);
          if s[0] == pat[0] { assert !(pat[1..] <= s[1..]); }
        }
        assert !MatchAt(r, pat, 0);
        ConsNoMatch(s[0], rest, pat);
      }
    }
  }

  /** A text that does not contain the pattern still does not once a safe
      replacement is put in front of it. */
  lemma SafePrefixNoMatch(rep: string, rest: string, pat: string)
    requires SafeReplacement(pat, rep) && !Contains(rest, pat)
    ensures !Contains(rep + rest, pat)
  {
    var r := rep + rest;
    forall k: nat ensures !MatchAt(r, pat, k) {
      if k < |rep| {
        assert r[k] == rep[k] != pat[0];
      } else if k + |pat| <= |r| {
        assert rest[k - |rep|..k - |rep| + |pat|] == r[k..k + |pat|];
        assert !MatchAt(rest, pat, k - |rep|);
      }
    }
  }

  /** One character in front of a text without the pattern adds an
      occurrence only at the front. */
  lemma ConsNoMatch(c: char, rest: string, pat: string)
    requires !Contains(rest, pat) && !MatchAt([c] + rest, pat, 0)
    ensures !Contains([c] + rest, pat)
  {
    var r := [c] + rest;
    forall k: nat | 0 < k ensures !MatchAt(r, pat, k) {
      if k + |pat| <= |r| {
        assert rest[k - 1..k - 1 + |pat|] == r[k..k + |pat|];
        assert !MatchAt(rest, pat, k - 1);
      }
    }
  }

  /** Lines 20-29, in order: the mis-decoded punctuation and its intended
      ASCII form. The pattern of line 24 is U+00E2 U+20AC U+009D (the
      mis-decoded closing quote, whose last code point is invisible), so it
      does not shadow the longer patterns after it. */
  const Replacements: seq<(string, string)> := [
    ("\U{C2}", ""),
    ("\U{E2}\U{20AC}\U{2122}", "'"),
    ("\U{E2}\U{20AC}\U{153}", "\""),
    ("\U{E2}\U{20AC}\U{9D}", "\""),
    ("\U{E2}\U{20AC}\U{201C}", "-"),
    ("\U{E2}\U{20AC}\U{201D}", "-"),
    ("\U{E2}\U{20AC}\U{2DC}", "'"),
    ("\U{E2}\U{20AC}\U{A6}", "...")
  ]

  predicate ValidTable(table: seq<(string, string)>) {
    forall i :: 0 <= i < |table| ==> table[i].0 != [] && NonAscii(table[i].0[0])
  }

  /** The replacements applied one after another, each to the result of the
      previous one. */
  function ApplyReplacements(s: string, table: seq<(string, string)>): string
    requires ValidTable(table)
  {
    if table == [] then s
    else ReplaceAll(ApplyReplacements(s, table[..|table| - 1]), table[|table| - 1].0, table[|table| - 1].1)
  }

  lemma ReplacementsTableValid()
    ensures ValidTable(Replacements)
    ensures forall i :: 0 <= i < |Replacements| ==> SafeReplacement(Replacements[i].0, Replacements[i].1)
  {
  }

  /** Step `k` of the table leaves no occurrence of its own pattern. */
  lemma ReplacementStepRemoves(s: string, k: nat)
    requires 0 < k <= |Replacements|
    ensures ValidTable(Replacements[..k])
    ensures !Contains(ApplyReplacements(s, Replacements[..k]), Replacements[k - 1].0)
  {
    ReplacementsTableValid();
    var t := Replacements[..k];
    assert t[..|t| - 1] == Replacements[..k - 1];
    ReplaceAllRemoves(ApplyReplacements(s, Replacements[..k - 1]), Replacements[k - 1].0, Replacements[k - 1].1);
  }

  /** Every pattern starts with a non-ASCII character, so ASCII text goes
      through the whole table unchanged. */
  lemma {:induction false} ApplyReplacementsAscii(s: string, table: seq<(string, string)>)
    requires ValidTable(table) && AllAscii(s)
    ensures ApplyReplacements(s, table) == s
  {
    if table != [] {
      var init := table[..|table| - 1];
      assert ValidTable(init) by {
        forall i | 0 <= i < |init| ensures init[i] == table[i] { }
      }
      ApplyReplacementsAscii(s, init);
      var pat := table[|table| - 1].0;
      forall k: nat ensures !MatchAt(s, pat, k) {
        if k < |s| { assert IsAscii(s[k]) && NonAscii(pat[0]); }
      }
      ReplaceAllNoMatch(s, pat, table[|table| - 1].1);
    }
  }

  /** Applying two tables in turn is applying their concatenation. */
  lemma {:induction false} ApplyReplacementsConcat(s: string, t1: seq<(string, string)>, t2: seq<(string, string)>)
    requires ValidTable(t1) && ValidTable(t2)
    ensures ValidTable(t1 + t2)
    ensures ApplyReplacements(s, t1 + t2) == ApplyReplacements(ApplyReplacements(s, t1), t2)
    decreases |t2|
  {
    var t := t1 + t2;
    assert forall i :: 0 <= i < |t| ==> t[i] == if i < |t1| then t1[i] else t2[i - |t1|];
    if t2 != [] {
      var init := t2[..|t2| - 1];
      assert ValidTable(init) by {
        forall i | 0 <= i < |init| ensures init[i] == t2[i] { }
      }
      assert t[..|t| - 1] == t1 + init;
      assert t[|t| - 1] == t2[|t2| - 1];
      ApplyReplacementsConcat(s, t1, init);
      calc {
        ApplyReplacements(s, t);
        ReplaceAll(ApplyReplacements(s, t1 + init), t2[|t2| - 1].0, t2[|t2| - 1].1);
        ReplaceAll(ApplyReplacements(ApplyReplacements(s, t1), init), t2[|t2| - 1].0, t2[|t2| - 1].1);
        ApplyReplacements(ApplyReplacements(s, t1), t2);
      }
    } else {
      assert t == t1;
    }
  }

  /** No earlier pattern of the table occurs in the pattern of entry `k`,
      one of lines 25-28: each earlier pattern ends in a character that
      entry `k` does not have in that position. */
  lemma EarlierPatternAbsent(i: nat, k: nat)
    requires i < k < |Replacements| && 4 <= k
    ensures !Contains(Replacements[k].0, Replacements[i].0)
  {
    var s := Replacements[k].0;
    var pat := Replacements[i].0;
    assert |s| == 3 && (|pat| == 1 || |pat| == 3);
    forall j: nat ensures !MatchAt(s, pat, j) {
      if j + |pat| <= |s| {
        assert s[j..j + |pat|][|pat| - 1] == s[j + |pat| - 1];
      }
    }
  }

  /** The replacements before entry `k` leave its pattern as it is. */
  lemma EarlierStepsKeep(k: nat)
    requires 4 <= k < |Replacements|
    ensures ValidTable(Replacements[..k])
    ensures ApplyReplacements(Replacements[k].0, Replacements[..k]) == Replacements[k].0
  {
    ReplacementsTableValid();
    var s := Replacements[k].0;
    var i := 0;
    while i < k
      invariant 0 <= i <= k
      invariant ApplyReplacements(s, Replacements[..i]) == s
    {
      EarlierPatternAbsent(i, k);
      ApplySnoc(s, Replacements, i);
      ReplaceAllNoMatch(s, Replacements[i].0, Replacements[i].1);
      i := i + 1;
    }
  }

  /** One more step of a table: the prefix of length `i + 1` applies entry
      `i` to what the prefix of length `i` gives. */
  lemma ApplySnoc(s: string, table: seq<(string, string)>, i: nat)
    requires ValidTable(table) && i < |table|
    ensures ValidTable(table[..i]) && ValidTable(table[..i + 1])
    ensures ApplyReplacements(s, table[..i + 1]) == ReplaceAll(ApplyReplacements(s, table[..i]), table[i].0, table[i].1)
  {
    var t := table[..i + 1];
    assert t[..|t| - 1] == table[..i] && t[|t| - 1] == table[i];
  }

  /** Replacing a whole text that is the pattern gives the replacement. */
  lemma ReplaceAllWhole(pat: string, rep: string)
    requires pat != []
    ensures ReplaceAll(pat, pat, rep) == rep
  {
    assert pat[|pat|..] == [];
  }

  /** The patterns of lines 25-28 still occur when their turn comes: the
      line-24 pattern ends in U+009D, which they do not contain, so a text
      made of one of them is repaired by its own line. */
  lemma LaterPatternRepaired(k: nat)
    requires 4 <= k < |Replacements|
    ensures ValidTable(Replacements)
    ensures ApplyReplacements(Replacements[k].0, Replacements) == Replacements[k].1
  {
    ReplacementsTableValid();
    var s := Replacements[k].0;
    var rep := Replacements[k].1;
    EarlierStepsKeep(k);
    var front := Replacements[..k + 1];
    assert front[..k] == Replacements[..k] && front[k] == (s, rep);
    ReplaceAllWhole(s, rep);
    assert ApplyReplacements(s, front) == rep;
    ApplyReplacementsAscii(rep, Replacements[k + 1..]);
    assert Replacements == front + Replacements[k + 1..];
    ApplyReplacementsConcat(s, front, Replacements[k + 1..]);
  }

  // ---------------------------------------------------------------------------
  // `re.sub(r"[class]+", " ", s)`: each maximal run of class characters
  // becomes one space.

  function SkipRun(s: string, inClass: char -> bool): (r: string)
    ensures |r| <= |s| && r == s[|s| - |r|..]
    ensures r == [] || !inClass(r[0])
    ensures forall i :: 0 <= i < |s| - |r| ==> inClass(s[i])
  {
    if s != [] && inClass(s[0]) then SkipRun(s[1..], inClass) else s
  }

  function ReplaceRuns(s: string, inClass: char -> bool): (r: string)
    decreases |s|
  {
    if s == [] then []
    else if !inClass(s[0]) then [s[0]] + ReplaceRuns(s[1..], inClass)
    else [' '] + ReplaceRuns(SkipRun(s[1..], inClass), inClass)
  }

  /** In the result every class character is a space and no two class
      characters are adjacent. */
  predicate RunsCollapsed(r: string, inClass: char -> bool) {
    (forall i :: 0 <= i < |r| && inClass(r[i]) ==> r[i] == ' ')
    && (forall i, j :: 0 <= i < |r| && 0 <= j < |r| && j == i + 1 ==> !(inClass(r[i]) && inClass(r[j])))
  }

  lemma {:induction false} ReplaceRunsCollapses(s: string, inClass: char -> bool)
    ensures RunsCollapsed(ReplaceRuns(s, inClass), inClass)
    ensures |ReplaceRuns(s, inClass)| > 0 && inClass(ReplaceRuns(s, inClass)[0]) ==> s != [] && inClass(s[0])
    decreases |s|
  {
    if s != [] {
      if !inClass(s[0]) {
        ReplaceRunsCollapses(s[1..], inClass);
        ConsCollapsed(s[0], ReplaceRuns(s[1..], inClass), inClass);
      } else {
        var t := SkipRun(s[1..], inClass);
        ReplaceRunsCollapses(t, inClass);
        ConsCollapsed(' ', ReplaceRuns(t, inClass), inClass);
      }
    }
  }

  /** Putting one character in front keeps runs collapsed when it is not a
      class character other than a space and does not touch a class
      character. */
  lemma ConsCollapsed(c: char, r: string, inClass: char -> bool)
    requires RunsCollapsed(r, inClass)
    requires inClass(c) ==> c == ' ' && (r == [] || !inClass(r[0]))
    ensures RunsCollapsed([c] + r, inClass)
  {
    var u := [c] + r;
    assert forall i :: 0 < i < |u| ==> u[i] == r[i - 1];
  }

  lemma RunsCollapsedTail(s: string, inClass: char -> bool)
    requires s != [] && RunsCollapsed(s, inClass)
    ensures RunsCollapsed(s[1..], inClass)
  {
    var t := s[1..];
    forall i | 0 <= i < |t| && inClass(t[i]) ensures t[i] == ' ' {
      assert t[i] == s[i + 1];
    }
    forall i, j | 0 <= i < |t| && 0 <= j < |t| && j == i + 1 ensures !(inClass(t[i]) && inClass(t[j])) {
      assert t[i] == s[i + 1] && t[j] == s[j + 1];
    }
  }

  /** A string whose runs are already collapsed is a fixed point. */
  lemma {:induction false} ReplaceRunsFixedPoint(s: string, inClass: char -> bool)
    requires RunsCollapsed(s, inClass)
    ensures ReplaceRuns(s, inClass) == s
    decreases |s|
  {
    if s != [] {
      var t := s[1..];
      RunsCollapsedTail(s, inClass);
      ReplaceRunsFixedPoint(t, inClass);
      if inClass(s[0]) {
        CollapsedHead(s, inClass);
      }
      FixedPointCons(s, inClass);
    }
  }

  /** A head that is not a class character, or a space before a tail not
      starting with one, survives the substitution of a fixed-point tail. */
  lemma FixedPointCons(s: string, inClass: char -> bool)
    requires s != [] && ReplaceRuns(s[1..], inClass) == s[1..]
    requires inClass(s[0]) ==> s[0] == ' ' && (s[1..] == [] || !inClass(s[1..][0]))
    ensures ReplaceRuns(s, inClass) == s
  {
    var t := s[1..];
    if inClass(s[0]) {
      assert SkipRun(t, inClass) == t;
      assert ReplaceRuns(s, inClass) == [' '] + ReplaceRuns(t, inClass);
    } else {
      assert ReplaceRuns(s, inClass) == [s[0]] + ReplaceRuns(t, inClass);
    }
    assert s == [s[0]] + t;
  }

  /** A class character at the head of a collapsed string is a space, and
      the character after it is outside the class. */
  lemma CollapsedHead(s: string, inClass: char -> bool)
    requires s != [] && RunsCollapsed(s, inClass) && inClass(s[0])
    ensures s[0] == ' '
    ensures s[1..] == [] || !inClass(s[1..][0])
  {
    if |s| > 1 {
      assert !(inClass(s[0]) && inClass(s[1]));
    }
  }

  /** Each maximal run of class characters, preceded by text without any and
      followed by text not starting with one, turns into exactly one space. */
  lemma {:induction false} ReplaceRunsRun(a: string, run: string, b: string, inClass: char -> bool)
    requires forall i :: 0 <= i < |a| ==> !inClass(a[i])
    requires run != [] && forall i :: 0 <= i < |run| ==> inClass(run[i])
    requires b == [] || !inClass(b[0])
    ensures ReplaceRuns(a + run + b, inClass) == a + " " + ReplaceRuns(b, inClass)
    decreases |a| + |run|
  {
    if a != [] {
      assert (a + run + b)[1..] == a[1..] + run + b;
      ReplaceRunsRun(a[1..], run, b, inClass);
    } else {
      var w := run + b;
      assert a + run + b == w && w[0] == run[0];
      assert w[1..] == run[1..] + b;
      SkipRunAll(run[1..], b, inClass);
    }
  }

  lemma {:induction false} SkipRunAll(run: string, b: string, inClass: char -> bool)
    requires forall i :: 0 <= i < |run| ==> inClass(run[i])
    requires b == [] || !inClass(b[0])
    ensures SkipRun(run + b, inClass) == b
    decreases |run|
  {
    if run != [] {
      assert (run + b)[1..] == run[1..] + b;
      SkipRunAll(run[1..], b, inClass);
    }
  }

  // ---------------------------------------------------------------------------
  // The whole of `clean_text`

  /** ASCII, every whitespace character a plain space, no two spaces in a
      row, no space at either end. */
  predicate Normalized(s: string) {
    AllAscii(s) && RunsCollapsed(s, IsSpace) && NoEdgeSpace(s)
  }

  /** Lines 20-34 on the repaired text. */
  function Normalize(t: string): string
  {
    ReplacementsTableValid();
    Strip(ReplaceRuns(ReplaceRuns(ApplyReplacements(t, Replacements), NonAscii), IsSpace))
  }

  lemma {:induction false} ReplaceRunsKeepsAscii(s: string, inClass: char -> bool)
    requires AllAscii(s)
    ensures AllAscii(ReplaceRuns(s, inClass))
    decreases |s|
  {
    if s != [] {
      if !inClass(s[0]) {
        ReplaceRunsKeepsAscii(s[1..], inClass);
      } else {
        var t := SkipRun(s[1..], inClass);
        assert AllAscii(t) by {
          forall i | 0 <= i < |t| ensures IsAscii(t[i]) { assert t[i] == s[1..][|s[1..]| - |t| + i]; }
        }
        ReplaceRunsKeepsAscii(t, inClass);
      }
    }
  }

  lemma CollapsedNonAsciiIsAscii(u: string)
    requires RunsCollapsed(u, NonAscii)
    ensures AllAscii(u)
  {
    forall i | 0 <= i < |u| ensures IsAscii(u[i]) {
      if NonAscii(u[i]) { assert u[i] == ' '; }
    }
  }

  /** Any slice of a string with collapsed runs has collapsed runs. */
  lemma RunsCollapsedSlice(w: string, k: nat, n: nat, inClass: char -> bool)
    requires k + n <= |w| && RunsCollapsed(w, inClass)
    ensures RunsCollapsed(w[k..k + n], inClass)
  {
    var r := w[k..k + n];
    forall i | 0 <= i < |r| && inClass(r[i]) ensures r[i] == ' ' {
      assert r[i] == w[k + i];
    }
    forall i, j | 0 <= i < |r| && 0 <= j < |r| && j == i + 1 ensures !(inClass(r[i]) && inClass(r[j])) {
      assert r[i] == w[k + i] && r[j] == w[k + j];
    }
  }

  /** Trimming a collapsed ASCII string leaves it normalized. */
  lemma StripNormalizes(w: string)
    requires AllAscii(w) && RunsCollapsed(w, IsSpace)
    ensures Normalized(Strip(w))
  {
    StripSpec(w);
    var r := Strip(w);
    var k := LeadingSpaces(w);
    RunsCollapsedSlice(w, k, |r|, IsSpace);
    forall i | 0 <= i < |r| ensures IsAscii(r[i]) {
      assert r[i] == w[k + i];
    }
  }

  lemma NormalizeNormalized(t: string)
    ensures Normalized(Normalize(t))
  {
    ReplacementsTableValid();
    var u := ReplaceRuns(ApplyReplacements(t, Replacements), NonAscii);
    ReplaceRunsCollapses(ApplyReplacements(t, Replacements), NonAscii);
    CollapsedNonAsciiIsAscii(u);
    var w := ReplaceRuns(u, IsSpace);
    ReplaceRunsCollapses(u, IsSpace);
    ReplaceRunsKeepsAscii(u, IsSpace);
    StripNormalizes(w);
    assert Normalize(t) == Strip(w);
  }

  /** A normalized string is a fixed point of every step after the repair. */
  lemma NormalizeFixedPoint(s: string)
    requires Normalized(s)
    ensures Normalize(s) == s
  {
    ReplacementsTableValid();
    ApplyReplacementsAscii(s, Replacements);
    ReplaceRunsFixedPoint(s, NonAscii);
    ReplaceRunsFixedPoint(s, IsSpace);
    StripNoEdgeSpace(s);
  }

  /** A string cell whose latin-1 bytes the decoder rejects. */
  predicate DecodeFails(c: Cell, utf8: Utf8Decoder) {
    c.Str? && Latin1Encode(c.s).Some? && utf8(Latin1Encode(c.s).value).None?
  }

  /** `clean_text(text)`. */
  function CleanText(c: Cell, utf8: Utf8Decoder): (r: Result<Cell>)
    ensures c.Missing? ==> r == Ok(Missing)
    ensures c.Str? && r.Ok? ==> r.value.Str? && Normalized(r.value.s)
    ensures r.UnicodeDecodeError? <==> DecodeFails(c, utf8)
    ensures c.Str? && Latin1Encode(c.s).None? ==> r == Ok(Str(Normalize(c.s)))
    ensures c.Str? && Latin1Encode(c.s).Some? && utf8(Latin1Encode(c.s).value).Some? ==>
              r == Ok(Str(Normalize(utf8(Latin1Encode(c.s).value).value)))
  {
    match c
    case Missing => Ok(Missing)
    case Str(s) =>
      match Repair(s, utf8)
      case UnicodeDecodeError => UnicodeDecodeError
      case Ok(t) => NormalizeNormalized(t); Ok(Str(Normalize(t)))
  }

  /** Cleaning its own output changes nothing, for any decoder that decodes
      ASCII bytes to themselves. */
  lemma CleanTextIdempotent(c: Cell, utf8: Utf8Decoder)
    requires AsciiTransparent(utf8)
    requires CleanText(c, utf8).Ok?
    ensures CleanText(CleanText(c, utf8).value, utf8) == CleanText(c, utf8)
  {
    var d := CleanText(c, utf8).value;
    if d.Str? {
      assert AllAscii(d.s);
      assert Repair(d.s, utf8) == Ok(d.s);
      NormalizeFixedPoint(d.s);
    }
  }
}
