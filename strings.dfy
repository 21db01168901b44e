/** The few operations of Python's `str` that the pipeline relies on. */
module Strings {
  import opened Wrappers

  /** `str.isspace()` of one character, which is also what `\s` matches in a
      regular expression over `str`: the ASCII controls TAB..CR and FS..US,
      SPACE, and the Unicode separators NEL, NBSP, OGHAM SPACE MARK,
      EN QUAD..HAIR SPACE, LINE and PARAGRAPH SEPARATOR, NARROW NBSP,
      MEDIUM MATHEMATICAL SPACE and IDEOGRAPHIC SPACE. */
  predicate IsSpace(c: char) {
    || ('\t' <= c <= '\r')
    || ('\U{1C}' <= c <= '\U{1F}')
    || c == ' '
    || c == '\U{85}'
    || c == '\U{A0}'
    || c == '\U{1680}'
    || ('\U{2000}' <= c <= '\U{200A}')
    || c == '\U{2028}'
    || c == '\U{2029}'
    || c == '\U{202F}'
    || c == '\U{205F}'
    || c == '\U{3000}'
  }

  ghost predicate AllSpace(s: string) {
    forall i :: 0 <= i < |s| ==> IsSpace(s[i])
  }

  /** A string with no whitespace at either end: what `strip()` returns. */
  predicate IsStripped(s: string) {
    s == [] || (!IsSpace(s[0]) && !IsSpace(s[|s| - 1]))
  }

  /** Lower-casing of one character, restricted to the ASCII letters. */
  function LowerChar(c: char): char {
    if 'A' <= c <= 'Z' then (c as int + 32) as char else c
  }

  /** `str.lower()` on the ASCII letters. */
  function Lower(s: string): string {
    seq(|s|, i requires 0 <= i < |s| => LowerChar(s[i]))
  }

  /** `str.endswith(suffix)`. */
  predicate EndsWith(s: string, suffix: string) {
    |suffix| <= |s| && s[|s| - |suffix|..] == suffix
  }

  /** Python's truthiness-based `a or b` where `a` is an optional string:
      `None` and `""` both fall through to `b`. */
  function OrElse(a: Option<string>, b: string): (r: string)
    ensures a.Some? && a.value != "" ==> r == a.value
    ensures !(a.Some? && a.value != "") ==> r == b
  {
    if a.Some? && a.value != "" then a.value else b
  }

  /** `s.replace(c, '')` for a one-character `c`. */
  function RemoveChar(s: string, c: char): string
  {
    if s == [] then []
    else (if s[0] == c then [] else [s[0]]) + RemoveChar(s[1..], c)
  }

  /** `RemoveChar` keeps exactly the characters other than `c`. */
  lemma {:induction false} RemoveCharMembers(s: string, c: char)
    ensures |RemoveChar(s, c)| <= |s|
    ensures forall x :: x in RemoveChar(s, c) <==> x in s && x != c
  {
    if s != [] {
      RemoveCharMembers(s[1..], c);
      assert s == [s[0]] + s[1..];
    }
  }

  /** Removing a character distributes over concatenation; together with the
      one-character case (`[x]` becomes `[]` when `x == c` and stays `[x]`
      otherwise) this determines `RemoveChar` completely. */
  lemma {:induction false} RemoveCharConcat(a: string, b: string, c: char)
    ensures RemoveChar(a + b, c) == RemoveChar(a, c) + RemoveChar(b, c)
  {
    if a == [] {
      assert a + b == b;
    } else {
      assert (a + b)[1..] == a[1..] + b;
      RemoveCharConcat(a[1..], b, c);
    }
  }

  /** A string without `c` is left as it is. */
  lemma {:induction false} RemoveCharAbsent(s: string, c: char)
    requires c !in s
    ensures RemoveChar(s, c) == s
  {
    if s != [] {
      assert c !in s[1..];
      RemoveCharAbsent(s[1..], c);
    }
  }

  /** The number of whitespace characters `strip()` skips at the front. */
  function LeadingSpaces(s: string): (k: nat)
    ensures k <= |s|
    ensures k < |s| ==> !IsSpace(s[k])
  {
    if s == [] || !IsSpace(s[0]) then 0 else 1 + LeadingSpaces(s[1..])
  }

  /** Where `strip()` cuts at the back, never going left of `lo`. */
  function TrailingCut(s: string, lo: nat): (hi: nat)
    requires lo <= |s|
    ensures lo <= hi <= |s|
    ensures hi > lo ==> !IsSpace(s[hi - 1])
  {
    if |s| == lo || !IsSpace(s[|s| - 1]) then |s| else TrailingCut(s[..|s| - 1], lo)
  }

  /** What `strip()` skips at the front and cuts at the back is whitespace. */
  lemma {:induction false} LeadingSpacesAreSpaces(s: string)
    ensures forall j :: 0 <= j < LeadingSpaces(s) ==> IsSpace(s[j])
  {
    if s != [] && IsSpace(s[0]) {
      LeadingSpacesAreSpaces(s[1..]);
      forall j | 1 <= j < LeadingSpaces(s) ensures IsSpace(s[j]) {
        assert s[j] == s[1..][j - 1];
      }
    }
  }

  lemma {:induction false} TrailingCutAreSpaces(s: string, lo: nat)
    requires lo <= |s|
    ensures forall j :: TrailingCut(s, lo) <= j < |s| ==> IsSpace(s[j])
    decreases |s|
  {
    if |s| != lo && IsSpace(s[|s| - 1]) {
      TrailingCutAreSpaces(s[..|s| - 1], lo);
    }
  }

  /** `str.strip()` with no argument: the slice between the leading and the
      trailing run of whitespace. */
  function Strip(s: string): (r: string)
    ensures IsStripped(r)
    ensures |r| <= |s|
  {
    var lo := LeadingSpaces(s);
    var hi := TrailingCut(s, lo);
    if lo < hi then
      assert !IsSpace(s[lo]);
      s[lo..hi]
    else
      s[lo..hi]
  }

  /** `strip()` only drops characters: what it keeps was in the input. */
  lemma StripMembers(s: string)
    ensures forall x :: x in Strip(s) ==> x in s
  {
    var lo := LeadingSpaces(s);
    var hi := TrailingCut(s, lo);
    forall x | x in s[lo..hi] ensures x in s {
      var j :| 0 <= j < hi - lo && s[lo..hi][j] == x;
      assert s[lo + j] == x;
    }
  }

  lemma LeadingSpacesOfSpaces(a: string, t: string)
    requires AllSpace(a)
    ensures LeadingSpaces(a + t) == |a| + LeadingSpaces(t)
    decreases |a|
  {
    if a != [] {
      assert (a + t)[1..] == a[1..] + t;
      LeadingSpacesOfSpaces(a[1..], t);
    } else {
      assert a + t == t;
    }
  }

  lemma TrailingCutOfSpaces(m: string, b: string, lo: nat)
    requires lo <= |m|
    requires AllSpace(b)
    ensures TrailingCut(m + b, lo) == TrailingCut(m, lo)
    decreases |b|
  {
    if b == [] {
      assert m + b == m;
    } else {
      var s := m + b;
      assert IsSpace(s[|s| - 1]);
      assert s[..|s| - 1] == m + b[..|b| - 1];
      TrailingCutOfSpaces(m, b[..|b| - 1], lo);
    }
  }

  /** `strip()` has exactly one answer: whatever is left between a leading
      and a trailing run of whitespace, provided it is itself stripped. This
      characterises `Strip` without reference to how it is computed. */
  lemma StripUnique(a: string, m: string, b: string)
    requires AllSpace(a) && AllSpace(b) && IsStripped(m)
    ensures Strip(a + m + b) == m
  {
    if m == [] {
      StripAllSpace(a, b);
      assert a + m + b == a + b;
    } else {
      StripAroundWord(a, m, b);
    }
  }

  /** Only whitespace strips to nothing. */
  lemma StripAllSpace(a: string, b: string)
    requires AllSpace(a) && AllSpace(b)
    ensures Strip(a + b) == []
  {
    var s := a + b;
    assert AllSpace(s);
    assert s + [] == s;
    LeadingSpacesOfSpaces(s, []);
  }

  lemma StripAroundWord(a: string, m: string, b: string)
    requires AllSpace(a) && AllSpace(b) && m != [] && IsStripped(m)
    ensures Strip(a + m + b) == m
  {
    var s := a + m + b;
    assert s == a + (m + b);
    LeadingSpacesOfSpaces(a, m + b);
    assert (m + b)[0] == m[0];
    assert LeadingSpaces(m + b) == 0;
    var lo := |a|;
    assert s == (a + m) + b;
    TrailingCutOfSpaces(a + m, b, lo);
    assert (a + m)[|a + m| - 1] == m[|m| - 1];
    assert TrailingCut(a + m, lo) == |a + m|;
    assert s[lo..|a + m|] == m;
  }

  /** A stripped string is a fixed point of `strip()`. */
  lemma StripStripped(s: string)
    requires IsStripped(s)
    ensures Strip(s) == s
  {
    assert [] + s + [] == s;
    StripUnique([], s, []);
  }
}
