/** Python's `str.strip()` with no argument: remove surrounding whitespace. */
module Text {

  /** `str.isspace` on one character: the code points Python treats as
      whitespace (tab to carriage return, the four information separators
      U+001C to U+001F, space, and the Unicode space separators). */
  predicate IsSpace(c: char) {
    || '\t' <= c <= '\r'
    || '\U{1C}' <= c <= ' '
    || c == '\U{85}' || c == '\U{A0}' || c == '\U{1680}'
    || '\U{2000}' <= c <= '\U{200A}'
    || c == '\U{2028}' || c == '\U{2029}' || c == '\U{202F}' || c == '\U{205F}' || c == '\U{3000}'
  }

  predicate AllSpace(s: string) {
    forall k :: 0 <= k < |s| ==> IsSpace(s[k])
  }

  /** Neither end of s is whitespace. */
  predicate Trimmed(s: string) {
    s == [] || (!IsSpace(s[0]) && !IsSpace(s[|s| - 1]))
  }

  /** How many whitespace characters s starts with. */
  function LeadingSpaces(s: string): (n: nat)
    ensures n <= |s|
    ensures forall k :: 0 <= k < n ==> IsSpace(s[k])
    ensures n < |s| ==> !IsSpace(s[n])
  {
    if |s| > 0 && IsSpace(s[0]) then LeadingSpaces(s[1..]) + 1 else 0
  }

  /** How many whitespace characters s ends with. */
  function TrailingSpaces(s: string): (n: nat)
    ensures n <= |s|
    ensures forall k :: |s| - n <= k < |s| ==> IsSpace(s[k])
    ensures n < |s| ==> !IsSpace(s[|s| - n - 1])
  {
    if |s| > 0 && IsSpace(s[|s| - 1]) then TrailingSpaces(s[..|s| - 1]) + 1 else 0
  }

  /** r stands in s at position i with only whitespace before and after. */
  predicate SurroundedBySpace(s: string, i: int, r: string) {
    0 <= i <= |s| - |r| && r == s[i..i + |r|]
    && (forall k :: 0 <= k < i ==> IsSpace(s[k]))
    && (forall k :: i + |r| <= k < |s| ==> IsSpace(s[k]))
  }

  /** `str.strip()`: drop the leading whitespace, then the trailing
      whitespace of what remains. */
  function Strip(s: string): (r: string)
    ensures |r| <= |s|
    ensures r == [] <==> AllSpace(s)
  {
    var i := LeadingSpaces(s);
    s[i..|s| - TrailingSpaces(s[i..])]
  }

  /** What strip returns is an infix of s whose ends are not whitespace,
      with only whitespace around it. */
  lemma StripSpec(s: string)
    ensures Trimmed(Strip(s))
    ensures exists i :: SurroundedBySpace(s, i, Strip(s))
  {
    StripTrimmed(s);
    StripSurrounded(s);
  }

  lemma StripTrimmed(s: string)
    ensures Trimmed(Strip(s))
  {
    var i := LeadingSpaces(s);
    var rest := s[i..];
    var n := TrailingSpaces(rest);
    var r := Strip(s);
    assert r == s[i..|s| - n];
    if r != [] {
      assert r[0] == rest[0];
      assert r[|r| - 1] == rest[|rest| - n - 1];
    }
  }

  lemma StripSurrounded(s: string)
    ensures SurroundedBySpace(s, LeadingSpaces(s), Strip(s))
  {
    var i := LeadingSpaces(s);
    var rest := s[i..];
    var n := TrailingSpaces(rest);
    var j := |s| - n;
    assert Strip(s) == s[i..j];
    forall k | j <= k < |s|
      ensures IsSpace(s[k])
    {
      assert s[k] == rest[k - i];
    }
  }

  /** A string whose ends are not whitespace is left as it is. */
  lemma StripFixedPoint(s: string)
    requires Trimmed(s)
    ensures Strip(s) == s
  {
    assert LeadingSpaces(s) == 0;
    assert s[0..] == s;
    assert TrailingSpaces(s) == 0;
  }

  lemma StripIdempotent(s: string)
    ensures Strip(Strip(s)) == Strip(s)
  {
    StripFixedPoint(Strip(s));
  }

  /** Whitespace on either side of a trimmed string is all that strip
      removes. */
  lemma StripSurrounding(a: string, s: string, b: string)
    requires AllSpace(a) && AllSpace(b) && Trimmed(s)
    ensures Strip(a + s + b) == s
  {
    var x := a + s + b;
    var i := LeadingSpaces(x);
    assert forall k :: 0 <= k < |a| ==> x[k] == a[k];
    assert forall k :: |a| + |s| <= k < |x| ==> x[k] == b[k - |a| - |s|];
    if s == [] {
      assert i == |x|;
      assert x[i..][0..0] == [];
    } else {
      assert x[|a|] == s[0];
      assert i == |a|;
      var rest := x[i..];
      assert rest == s + b;
      assert forall k :: |s| <= k < |rest| ==> rest[k] == b[k - |s|];
      assert rest[|s| - 1] == s[|s| - 1];
      var n := TrailingSpaces(rest);
      assert n == |b|;
      assert x[|a|..|a| + |s|] == s;
    }
  }
}
