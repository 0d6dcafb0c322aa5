/** String helpers: Python's `str.strip`, substring search, code points and `str.join`. */
module Text {

  /** The characters Python's `str.isspace` accepts, which is what `str.strip()` removes. */
  predicate IsSpace(c: char) {
    || c == ' '
    || ('\t' <= c <= '\r')                // \t \n \x0b \x0c \r
    || ('\U{1C}' <= c <= '\U{1F}')        // file, group, record and unit separators
    || c == '\U{85}' || c == '\U{A0}' || c == '\U{1680}'
    || ('\U{2000}' <= c <= '\U{200A}')
    || c == '\U{2028}' || c == '\U{2029}' || c == '\U{202F}' || c == '\U{205F}' || c == '\U{3000}'
  }

  predicate AllSpace(s: string) {
    forall k :: 0 <= k < |s| ==> IsSpace(s[k])
  }

  /** No whitespace at either end: what `strip()` leaves. */
  predicate IsStripped(s: string) {
    s == [] || (!IsSpace(s[0]) && !IsSpace(s[|s| - 1]))
  }

  /** The number of whitespace characters `strip()` removes at the start. */
  function LeadingSpaces(s: string): (n: nat)
    ensures n <= |s| && AllSpace(s[..n])
    ensures n < |s| ==> !IsSpace(s[n])
  {
    if s == [] || !IsSpace(s[0]) then 0
    else
      var m := LeadingSpaces(s[1..]);
      assert forall k :: 1 <= k < m + 1 ==> s[k] == s[1..][k - 1];
      m + 1
  }

  /** Where the whitespace that `strip()` removes at the end begins. */
  function TrailingStart(s: string): (n: nat)
    ensures n <= |s| && AllSpace(s[n..])
    ensures 0 < n ==> !IsSpace(s[n - 1])
  {
    if s == [] || !IsSpace(s[|s| - 1]) then |s|
    else
      var m := TrailingStart(s[..|s| - 1]);
      assert forall k :: m <= k < |s| - 1 ==> s[k] == s[..|s| - 1][k];
      m
  }

  /** Python's `s.strip()`: the text between the leading and the trailing whitespace. */
  function Strip(s: string): (r: string)
    ensures IsStripped(r)
  {
    var i, j := LeadingSpaces(s), TrailingStart(s);
    if i == |s| then [] else s[i..j]
  }

  /** `strip()` removes only whitespace, and only at the two ends: the result is an infix of `s`. */
  lemma StripInfix(s: string)
    ensures exists i :: 0 <= i <= |s| - |Strip(s)| && AllSpace(s[..i]) && Strip(s) == s[i..i + |Strip(s)|] && AllSpace(s[i + |Strip(s)|..])
  {
    var i := LeadingSpaces(s);
    if i == |s| {
      assert Strip(s) == [] && s[i..i] == [];
    } else {
      var j := TrailingStart(s);
      assert s[..j] == s[..i] + s[i..j];
      assert Strip(s) == s[i..j] && |Strip(s)| == j - i;
    }
  }

  /** Stripping is idempotent: a stripped string is its own strip. */
  lemma StripIdempotent(s: string)
    ensures Strip(Strip(s)) == Strip(s)
  {
    StrippedIsFixed(Strip(s));
  }

  lemma StrippedIsFixed(s: string)
    requires IsStripped(s)
    ensures Strip(s) == s
  {
    if s != [] {
      assert LeadingSpaces(s) == 0 && TrailingStart(s) == |s|;
    }
  }

  /** `strip()` is empty exactly when the whole string is whitespace. */
  lemma StripEmptyIff(s: string)
    ensures Strip(s) == [] <==> AllSpace(s)
  {
    var i := LeadingSpaces(s);
    if i == |s| {
      assert s[..i] == s;
    } else {
      assert !IsSpace(s[i]);
    }
  }

  /** `p` occurs in `s` starting at index `i`. */
  predicate OccursAt(s: string, p: string, i: int) {
    0 <= i && i + |p| <= |s| && s[i..i + |p|] == p
  }

  /** Literal substring search: `p in s` in Python. */
  predicate Contains(s: string, p: string): (r: bool)
    ensures r <==> exists i :: OccursAt(s, p, i)
    decreases |s|
  {
    if |p| <= |s| && s[..|p|] == p then
      assert OccursAt(s, p, 0);
      true
    else if s == [] then
      false
    else
      assert forall i :: OccursAt(s[1..], p, i) <==> OccursAt(s, p, i + 1);
      assert forall i :: OccursAt(s, p, i) ==> i > 0 && OccursAt(s[1..], p, i - 1);
      Contains(s[1..], p)
  }

  /** A string cannot contain a pattern whose first character it lacks. */
  lemma MissingFirstChar(s: string, p: string)
    requires p != [] && forall k :: 0 <= k < |s| ==> s[k] != p[0]
    ensures !Contains(s, p)
  {
    forall i | OccursAt(s, p, i) ensures s[i] == p[0] {
      assert s[i..i + |p|][0] == p[0];
    }
  }

  /** The code points of `s`: Python compares strings by these, lexicographically. */
  function Codes(s: string): (r: seq<int>)
    ensures |r| == |s|
    ensures forall k :: 0 <= k < |s| ==> r[k] == s[k] as int
  {
    seq(|s|, k requires 0 <= k < |s| => s[k] as int)
  }

  lemma CodesInjective(a: string, b: string)
    requires Codes(a) == Codes(b)
    ensures a == b
  {
    assert |a| == |b|;
    forall k | 0 <= k < |a| ensures a[k] == b[k] {
      assert Codes(a)[k] == Codes(b)[k];
    }
  }

  /** Python's `sep.join(parts)`. */
  function Join(parts: seq<string>, sep: string): string
  {
    if parts == [] then ""
    else if |parts| == 1 then parts[0]
    else parts[0] + sep + Join(parts[1..], sep)
  }
}
