/**
 * The few operations on Python `str` values that the timetable scripts use:
 * the substring test `p in s`, `s.upper()`, `s.strip()`, `s.split(sep)` and
 * the ordering `a <= b` that `sorted` applies to strings.
 */
module Strings {

  predicate IsPrefix(p: string, s: string) {
    |p| <= |s| && s[..|p|] == p
  }

  /** Python's `p in s` on strings: `p` occurs in `s` as a contiguous run (the empty string always does). */
  predicate Contains(s: string, p: string)
    decreases |s|
  {
    IsPrefix(p, s) || (|s| > 0 && Contains(s[1..], p))
  }

  /** `s.upper()` on the ASCII letters; every other character is kept. */
  function UpperChar(c: char): char {
    if 'a' <= c <= 'z' then (c as int - 32) as char else c
  }

  function Upper(s: string): (r: string)
    ensures |r| == |s|
  {
    if s == [] then [] else [UpperChar(s[0])] + Upper(s[1..])
  }

  /** The characters `str.isspace()` accepts, which `str.strip()` removes. */
  predicate IsSpace(c: char) {
    var n := c as int;
    (9 <= n <= 13) || (28 <= n <= 32) || n == 0x85 || n == 0xA0 || n == 0x1680
    || (0x2000 <= n <= 0x200A) || n == 0x2028 || n == 0x2029 || n == 0x202F
    || n == 0x205F || n == 0x3000
  }

  function StripLeading(s: string): string
    decreases |s|
  {
    if |s| > 0 && IsSpace(s[0]) then StripLeading(s[1..]) else s
  }

  function StripTrailing(s: string): string
    decreases |s|
  {
    if |s| > 0 && IsSpace(s[|s| - 1]) then StripTrailing(s[..|s| - 1]) else s
  }

  /** `s.strip()`: whitespace removed from both ends. */
  function Strip(s: string): string {
    StripTrailing(StripLeading(s))
  }

  /**
   * Stripping never cuts into text that starts and ends with a non-space
   * character: a line holding "BIUST -" still holds it once stripped.
   */
  lemma StripKeepsInnerText(s: string, p: string)
    requires Contains(s, p) && |p| > 0
    requires !IsSpace(p[0]) && !IsSpace(p[|p| - 1])
    ensures Contains(Strip(s), p)
  {
    StripLeadingKeeps(s, p);
    StripTrailingKeeps(StripLeading(s), p);
  }

  lemma {:induction false} StripLeadingKeeps(s: string, p: string)
    requires Contains(s, p) && |p| > 0 && !IsSpace(p[0])
    ensures Contains(StripLeading(s), p)
    decreases |s|
  {
    if |s| > 0 && IsSpace(s[0]) {
      assert s[0] != p[0];
      assert !IsPrefix(p, s);
      StripLeadingKeeps(s[1..], p);
    }
  }

  lemma {:induction false} StripTrailingKeeps(s: string, p: string)
    requires Contains(s, p) && |p| > 0 && !IsSpace(p[|p| - 1])
    ensures Contains(StripTrailing(s), p)
    decreases |s|
  {
    if |s| > 0 && IsSpace(s[|s| - 1]) {
      DropLastSpaceKeeps(s, p);
      StripTrailingKeeps(s[..|s| - 1], p);
    }
  }

  /** An occurrence of `p` cannot end on a space when `p` itself does not. */
  lemma {:induction false} DropLastSpaceKeeps(s: string, p: string)
    requires Contains(s, p) && |p| > 0 && !IsSpace(p[|p| - 1])
    requires |s| > 0 && IsSpace(s[|s| - 1])
    ensures Contains(s[..|s| - 1], p)
    decreases |s|
  {
    var init := s[..|s| - 1];
    if IsPrefix(p, s) {
      assert forall k :: 0 <= k < |p| ==> s[k] == p[k];
      assert s[|s| - 1] != p[|p| - 1];
      assert |p| < |s|;
      assert init[..|p|] == s[..|p|];
    } else {
      var tail := s[1..];
      assert Contains(tail, p);
      ContainsIsNoLonger(tail, p);
      assert tail[|tail| - 1] == s[|s| - 1];
      DropLastSpaceKeeps(tail, p);
      assert init[1..] == tail[..|tail| - 1];
    }
  }

  lemma {:induction false} ContainsIsNoLonger(s: string, p: string)
    requires Contains(s, p)
    ensures |p| <= |s|
    decreases |s|
  {
    if !IsPrefix(p, s) {
      ContainsIsNoLonger(s[1..], p);
    }
  }

  /** Position of the first `c` in `s`. */
  function IndexOf(s: string, c: char): (i: nat)
    requires c in s
    ensures i < |s| && s[i] == c && c !in s[..i]
  {
    if s[0] == c then 0 else 1 + IndexOf(s[1..], c)
  }

  /** `s.split(sep)` for a one-character separator: the pieces between the separators, at least one. */
  function Split(s: string, sep: char): (r: seq<string>)
    ensures |r| >= 1
    decreases |s|
  {
    if sep !in s then [s]
    else
      var i := IndexOf(s, sep);
      [s[..i]] + Split(s[i + 1..], sep)
  }

  /** Splitting `a + sep + b`, where neither part holds the separator, gives back the two parts. */
  lemma SplitTwo(a: string, b: string, sep: char)
    requires sep !in a && sep !in b
    ensures Split(a + [sep] + b, sep) == [a, b]
  {
    var s := a + [sep] + b;
    assert s[|a|] == sep;
    var i := IndexOf(s, sep);
    assert forall j :: 0 <= j < |a| ==> s[j] == a[j] && s[j] != sep;
    assert forall k :: 0 <= k < i ==> s[k] != sep;
    assert i == |a|;
    assert s[..i] == a;
    assert s[i + 1..] == b;
  }

  /** Python's `a <= b` on strings: code point by code point, a proper prefix first. */
  predicate LexLe(a: string, b: string)
    decreases |a|
  {
    |a| == 0 || (|b| > 0 && (a[0] < b[0] || (a[0] == b[0] && LexLe(a[1..], b[1..]))))
  }

  lemma {:induction false} LexLeTotal(a: string, b: string)
    ensures LexLe(a, b) || LexLe(b, a)
    decreases |a|
  {
    if |a| > 0 && |b| > 0 && a[0] == b[0] {
      LexLeTotal(a[1..], b[1..]);
    }
  }

  lemma {:induction false} LexLeTransitive(a: string, b: string, c: string)
    requires LexLe(a, b) && LexLe(b, c)
    ensures LexLe(a, c)
    decreases |a|
  {
    if |a| > 0 && a[0] == b[0] && b[0] == c[0] {
      LexLeTransitive(a[1..], b[1..], c[1..]);
    }
  }

  lemma {:induction false} LexLeAntisymmetric(a: string, b: string)
    requires LexLe(a, b) && LexLe(b, a)
    ensures a == b
    decreases |a|
  {
    if |a| > 0 {
      LexLeAntisymmetric(a[1..], b[1..]);
      assert a == [a[0]] + a[1..] && b == [b[0]] + b[1..];
    }
  }
}
