/**
 * The string operations the search engine applies to lines and digests:
 * Python's `str.strip()`, ASCII `str.lower()`, and `str.split(sep, 1)`.
 */
module Text {
  import opened Wrappers

  /** The characters for which Python's `str.isspace()` holds. */
  predicate IsSpace(c: char)
  {
    var k := c as int;
    || 0x09 <= k <= 0x0D
    || 0x1C <= k <= 0x20
    || k == 0x85 || k == 0xA0 || k == 0x1680
    || 0x2000 <= k <= 0x200A
    || k == 0x2028 || k == 0x2029 || k == 0x202F || k == 0x205F || k == 0x3000
  }

  /** Every character of `s` is whitespace (vacuously true of ""). */
  predicate AllSpace(s: string)
  {
    forall i :: 0 <= i < |s| ==> IsSpace(s[i])
  }

  /** The number of whitespace characters `s` starts with. */
  function Leading(s: string): (k: nat)
    ensures k <= |s|
    ensures forall j :: 0 <= j < k ==> IsSpace(s[j])
    ensures k < |s| ==> !IsSpace(s[k])
  {
    if s != "" && IsSpace(s[0]) then 1 + Leading(s[1..]) else 0
  }

  /** The number of whitespace characters `s` ends with. */
  function Trailing(s: string): (k: nat)
    ensures k <= |s|
    ensures forall j :: |s| - k <= j < |s| ==> IsSpace(s[j])
    ensures k < |s| ==> !IsSpace(s[|s| - k - 1])
  {
    if s != "" && IsSpace(s[|s| - 1]) then 1 + Trailing(s[..|s| - 1]) else 0
  }

  /** Python's `s.strip()`: `s` without its leading and trailing whitespace. */
  function Strip(s: string): string
  {
    var i := Leading(s);
    var l := s[i..];
    l[..|l| - Trailing(l)]
  }

  /** The bounds `Strip` cuts at: `s[i..j]` is what it keeps. */
  lemma StripBounds(s: string) returns (i: nat, j: nat)
    ensures i <= j <= |s| && Strip(s) == s[i..j]
    ensures forall k :: 0 <= k < i ==> IsSpace(s[k])
    ensures forall k :: j <= k < |s| ==> IsSpace(s[k])
    ensures i < j ==> !IsSpace(s[i]) && !IsSpace(s[j - 1])
  {
    i := Leading(s);
    var l := s[i..];
    var t := Trailing(l);
    j := i + |l| - t;
    assert forall k :: j <= k < |s| ==> s[k] == l[k - i];
  }

  /**
   * What `strip()` removes is a whitespace prefix and a whitespace suffix, and
   * what it keeps neither starts nor ends with whitespace.
   */
  lemma StripShape(s: string)
    ensures exists i, j :: 0 <= i <= j <= |s| && AllSpace(s[..i]) && AllSpace(s[j..]) && Strip(s) == s[i..j]
    ensures Strip(s) != "" ==> !IsSpace(Strip(s)[0]) && !IsSpace(Strip(s)[|Strip(s)| - 1])
  {
    var i, j := StripBounds(s);
    assert AllSpace(s[..i]);
    assert AllSpace(s[j..]) by {
      assert forall k :: 0 <= k < |s| - j ==> s[j..][k] == s[j + k];
    }
  }

  /** A line is blank, `strip()` leaves nothing of it, exactly when it is all whitespace. */
  lemma StripEmptyIffAllSpace(s: string)
    ensures Strip(s) == "" <==> AllSpace(s)
  {
    var i, j := StripBounds(s);
    if i < j {
      assert !AllSpace(s) by {
        assert !IsSpace(s[i]);
      }
    }
  }

  /** Python's ASCII-range `lower()` on one character. */
  function LowerChar(c: char): char
  {
    if 'A' <= c <= 'Z' then (c as int + 32) as char else c
  }

  /** `s.lower()`, restricted to the ASCII letters. */
  function Lower(s: string): (r: string)
    ensures |r| == |s|
    ensures forall i :: 0 <= i < |s| ==> r[i] == LowerChar(s[i])
  {
    if s == "" then "" else [LowerChar(s[0])] + Lower(s[1..])
  }

  /** Two strings are the same up to the case of their ASCII letters. */
  predicate SameIgnoringCase(a: string, b: string)
  {
    |a| == |b| && forall i :: 0 <= i < |a| ==> LowerChar(a[i]) == LowerChar(b[i])
  }

  /** `lower()` identifies exactly the strings that differ only in letter case. */
  lemma LowerEqualIff(a: string, b: string)
    ensures Lower(a) == Lower(b) <==> SameIgnoringCase(a, b)
  {
    if SameIgnoringCase(a, b) {
      assert forall i :: 0 <= i < |a| ==> Lower(a)[i] == Lower(b)[i];
    }
  }

  /**
   * Python's `s.split(sep, 1)`, returned only when `sep` occurs: the part before
   * the first `sep` and everything after it.
   */
  function SplitFirst(s: string, sep: char): (r: Option<(string, string)>)
    ensures r.None? <==> sep !in s
    ensures r.Some? ==> sep !in r.value.0 && r.value.0 + [sep] + r.value.1 == s
  {
    if s == "" then None
    else if s[0] == sep then Some(([], s[1..]))
    else
      match SplitFirst(s[1..], sep)
      case None => None
      case Some((before, after)) => Some(([s[0]] + before, after))
  }

  /** Joining at a separator that the first part lacks is undone by `SplitFirst`; the second part may contain it. */
  lemma {:induction false} SplitFirstJoin(before: string, after: string, sep: char)
    requires sep !in before
    ensures SplitFirst(before + [sep] + after, sep) == Some((before, after))
  {
    var s := before + [sep] + after;
    if before == "" {
      assert s[0] == sep && s[1..] == after;
    } else {
      assert s[0] == before[0] && s[0] != sep;
      assert s[1..] == before[1..] + [sep] + after;
      SplitFirstJoin(before[1..], after, sep);
      assert [s[0]] + before[1..] == before;
    }
  }
}
