/** The few pieces of Python's `str` behaviour the core relies on: `isspace`
    (which is also the set `\s` matches in a `str` regular expression),
    `strip()`, `lower()` as far as ASCII letters go, and `sep.join(parts)`. */
module PyStrings {

  /** `c.isspace()` in Python 3: the C0 separators, the ASCII space, NEL,
      NO-BREAK SPACE and the Unicode space separators. */
  predicate IsSpace(c: char) {
    var n := c as int;
    (9 <= n <= 13) || (28 <= n <= 32) || n == 0x85 || n == 0xA0 || n == 0x1680
    || (0x2000 <= n <= 0x200A) || n == 0x2028 || n == 0x2029 || n == 0x202F
    || n == 0x205F || n == 0x3000
  }

  /** Every character of `s` is whitespace (so `not s.strip()` holds). */
  predicate AllSpace(s: string) {
    forall i :: 0 <= i < |s| ==> IsSpace(s[i])
  }

  /** `s` neither starts nor ends with whitespace. */
  predicate NoEdgeSpace(s: string) {
    s == [] || (!IsSpace(s[0]) && !IsSpace(s[|s| - 1]))
  }

  /** `s.lstrip()`. */
  function TrimLeft(s: string): string
  {
    if s != [] && IsSpace(s[0]) then TrimLeft(s[1..]) else s
  }

  /** `s.rstrip()`. */
  function TrimRight(s: string): string
  {
    if s != [] && IsSpace(s[|s| - 1]) then TrimRight(s[..|s| - 1]) else s
  }

  /** `lstrip()` removes a whitespace prefix and stops at the first other
      character. */
  lemma {:induction false} TrimLeftSpec(s: string)
    ensures |TrimLeft(s)| <= |s| && TrimLeft(s) == s[|s| - |TrimLeft(s)|..]
    ensures TrimLeft(s) == [] || !IsSpace(TrimLeft(s)[0])
    ensures AllSpace(s[..|s| - |TrimLeft(s)|])
  {
    if s != [] && IsSpace(s[0]) {
      TrimLeftSpec(s[1..]);
      var n := |s| - |TrimLeft(s)|;
      assert s[1..][..n - 1] == s[1..n];
      assert forall i :: 1 <= i < n ==> s[..n][i] == s[1..][..n - 1][i - 1];
    }
  }

  /** `rstrip()` removes a whitespace suffix and stops at the last other
      character. */
  lemma {:induction false} TrimRightSpec(s: string)
    ensures |TrimRight(s)| <= |s| && TrimRight(s) == s[..|TrimRight(s)|]
    ensures TrimRight(s) == [] || !IsSpace(TrimRight(s)[|TrimRight(s)| - 1])
    ensures AllSpace(s[|TrimRight(s)|..])
  {
    if s != [] && IsSpace(s[|s| - 1]) {
      TrimRightSpec(s[..|s| - 1]);
      var n := |TrimRight(s)|;
      assert s[..|s| - 1][n..] == s[n..|s| - 1];
      assert forall i :: 0 <= i < |s| - 1 - n ==> s[n..][i] == s[..|s| - 1][n..][i];
    }
  }

  /** How many leading characters `strip()` removes. */
  function LeadingSpaces(s: string): (n: nat)
    ensures n <= |s|
  {
    TrimLeftSpec(s);
    |s| - |TrimLeft(s)|
  }

  /** `s.strip()`. */
  function Strip(s: string): string
  {
    TrimRight(TrimLeft(s))
  }

  /** `strip()` yields the slice of `s` left once the whitespace at both
      ends is removed. */
  lemma StripSpec(s: string)
    ensures NoEdgeSpace(Strip(s))
    ensures LeadingSpaces(s) + |Strip(s)| <= |s|
    ensures Strip(s) == s[LeadingSpaces(s)..LeadingSpaces(s) + |Strip(s)|]
    ensures AllSpace(s[..LeadingSpaces(s)]) && AllSpace(s[LeadingSpaces(s) + |Strip(s)|..])
  {
    var l := TrimLeft(s);
    TrimLeftSpec(s);
    TrimRightSpec(l);
    var r := TrimRight(l);
    var k := |s| - |l|;
    assert Strip(s) == r && LeadingSpaces(s) == k;
    SliceOfSlice(s, k, |r|);
    if r != [] {
      assert r[0] == l[0];
    }
  }

  lemma SliceOfSlice(s: string, k: nat, n: nat)
    requires k + n <= |s|
    ensures s[k..][..n] == s[k..k + n]
    ensures s[k..][n..] == s[k + n..]
  {
  }

  /** `strip()` removes everything exactly when everything is whitespace. */
  lemma StripEmptyIffAllSpace(s: string)
    ensures Strip(s) == [] <==> AllSpace(s)
  {
    StripSpec(s);
    var k := LeadingSpaces(s);
    if Strip(s) == [] {
      forall i | 0 <= i < |s| ensures IsSpace(s[i]) {
        if i < k { assert s[..k][i] == s[i]; } else { assert s[k..][i - k] == s[i]; }
      }
    } else {
      assert s[k] == Strip(s)[0];
    }
  }

  /** `strip()` leaves a string without edge whitespace untouched. */
  lemma StripNoEdgeSpace(s: string)
    requires NoEdgeSpace(s)
    ensures Strip(s) == s
  {
    assert TrimLeft(s) == s;
    assert TrimRight(s) == s;
  }

  function LowerChar(c: char): char {
    if 'A' <= c <= 'Z' then (c as int + 32) as char else c
  }

  /** `s.lower()` restricted to ASCII letters. Outside A-Z only KELVIN SIGN
      lower-cases to an ASCII letter (`k`, which no quit word contains) and
      LATIN CAPITAL LETTER I WITH DOT ABOVE to `i` followed by a combining
      dot; neither can turn a line into "q", "quit" or "exit". */
  function LowerAscii(s: string): string
  {
    if s == [] then [] else [LowerChar(s[0])] + LowerAscii(s[1..])
  }

  /** Lower-casing keeps the length and maps every character on its own. */
  lemma {:induction false} LowerAsciiSpec(s: string)
    ensures |LowerAscii(s)| == |s|
    ensures forall i :: 0 <= i < |s| ==> LowerAscii(s)[i] == LowerChar(s[i])
  {
    if s != [] {
      LowerAsciiSpec(s[1..]);
      assert forall i :: 1 <= i < |s| ==> LowerAscii(s)[i] == LowerAscii(s[1..])[i - 1];
    }
  }

  /** `sep.join(parts)`. */
  function Join(parts: seq<string>, sep: string): string
  {
    if |parts| == 0 then []
    else if |parts| == 1 then parts[0]
    else parts[0] + sep + Join(parts[1..], sep)
  }

  /** Joining with a whitespace separator gives an all-whitespace string
      exactly when every part is all whitespace. */
  lemma {:induction false} JoinAllSpace(parts: seq<string>, sep: string)
    requires AllSpace(sep)
    ensures AllSpace(Join(parts, sep)) <==> forall i :: 0 <= i < |parts| ==> AllSpace(parts[i])
  {
    if |parts| > 1 {
      JoinAllSpace(parts[1..], sep);
      var rest := Join(parts[1..], sep);
      var j := parts[0] + sep + rest;
      assert j == Join(parts, sep);
      if AllSpace(j) {
        forall i | 0 <= i < |parts[0]| ensures IsSpace(parts[0][i]) { assert j[i] == parts[0][i]; }
        forall i | 0 <= i < |rest| ensures IsSpace(rest[i]) { assert j[|parts[0]| + |sep| + i] == rest[i]; }
        forall i | 0 <= i < |parts| ensures AllSpace(parts[i]) {
          if i > 0 { assert parts[i] == parts[1..][i - 1]; }
        }
      }
      if forall i :: 0 <= i < |parts| ==> AllSpace(parts[i]) {
        assert AllSpace(parts[0]);
        assert forall i :: 0 <= i < |parts[1..]| ==> AllSpace(parts[1..][i]) by {
          forall i | 0 <= i < |parts[1..]| ensures AllSpace(parts[1..][i]) { assert parts[1..][i] == parts[i + 1]; }
        }
        forall i | 0 <= i < |j| ensures IsSpace(j[i]) {
          if i < |parts[0]| { assert j[i] == parts[0][i]; }
          else if i < |parts[0]| + |sep| { assert j[i] == sep[i - |parts[0]|]; }
          else { assert j[i] == rest[i - |parts[0]| - |sep|]; }
        }
      }
    } else if |parts| == 1 {
      assert Join(parts, sep) == parts[0];
    }
  }
}
