/**
 * `String.prototype.trim` of JavaScript: removes leading and trailing
 * white space and line terminators as ECMAScript defines them.
 */
module JsString {

  /**
   * ECMAScript WhiteSpace (tab, vertical tab, form feed, the byte order mark
   * and every space separator of Unicode category Zs) and LineTerminator
   * (line feed, carriage return, line and paragraph separators).
   */
  predicate IsJsWhiteSpace(c: char)
  {
    var n := c as int;
    || 0x09 <= n <= 0x0D     // tab, line feed, vertical tab, form feed, carriage return
    || n == 0x20 || n == 0xA0 || n == 0x1680
    || 0x2000 <= n <= 0x200A
    || n == 0x2028 || n == 0x2029 // line and paragraph separators
    || n == 0x202F || n == 0x205F || n == 0x3000
    || n == 0xFEFF            // byte order mark
  }

  /** The number of white-space characters `s` starts with. */
  function LeadingSpace(s: string): (n: nat)
    ensures n <= |s|
    ensures forall k :: 0 <= k < n ==> IsJsWhiteSpace(s[k])
    ensures n == |s| || !IsJsWhiteSpace(s[n])
  {
    if s != [] && IsJsWhiteSpace(s[0]) then
      var n := 1 + LeadingSpace(s[1..]);
      assert forall k :: 1 <= k < n ==> s[k] == s[1..][k - 1];
      n
    else 0
  }

  /** The number of white-space characters `s` ends with. */
  function TrailingSpace(s: string): (n: nat)
    ensures n <= |s|
    ensures forall k :: |s| - n <= k < |s| ==> IsJsWhiteSpace(s[k])
    ensures n == |s| || !IsJsWhiteSpace(s[|s| - n - 1])
  {
    if s != [] && IsJsWhiteSpace(s[|s| - 1]) then
      var n := 1 + TrailingSpace(s[..|s| - 1]);
      assert forall k :: |s| - n <= k < |s| - 1 ==> s[k] == s[..|s| - 1][k];
      n
    else 0
  }

  /** `s.trim()`: the leading white space goes first, then the trailing. */
  function Trim(s: string): (r: string)
    ensures |r| <= |s|
    ensures r == [] || (!IsJsWhiteSpace(r[0]) && !IsJsWhiteSpace(r[|r| - 1]))
  {
    var i := LeadingSpace(s);
    var t := s[i..];
    var n := TrailingSpace(t);
    assert n < |t| ==> t[|t| - n - 1] == s[i..|s| - n][|t| - n - 1];
    s[i..|s| - n]
  }

  /** The white space that ends a suffix `s[i..]` ends `s` itself. */
  lemma TrailingSpaceOfSuffix(s: string, i: nat)
    requires i <= |s|
    ensures forall k :: |s| - TrailingSpace(s[i..]) <= k < |s| ==> IsJsWhiteSpace(s[k])
  {
    var t := s[i..];
    forall k | |s| - TrailingSpace(t) <= k < |s| ensures IsJsWhiteSpace(s[k]) {
      assert s[k] == t[k - i];
    }
  }

  /**
   * The trimmed string is the slice `s[i..j]` of the input, everything cut
   * away on either side is white space, and it neither starts nor ends with
   * white space.
   */
  lemma TrimShape(s: string)
    ensures var i := LeadingSpace(s);
      && i + |Trim(s)| <= |s|
      && Trim(s) == s[i..i + |Trim(s)|]
      && (forall k :: 0 <= k < i ==> IsJsWhiteSpace(s[k]))
      && (forall k :: i + |Trim(s)| <= k < |s| ==> IsJsWhiteSpace(s[k]))
    ensures Trim(s) == [] || (!IsJsWhiteSpace(Trim(s)[0]) && !IsJsWhiteSpace(Trim(s)[|Trim(s)| - 1]))
  {
    var i := LeadingSpace(s);
    var n := TrailingSpace(s[i..]);
    assert Trim(s) == s[i..|s| - n];
    TrailingSpaceOfSuffix(s, i);
  }

  /** Trimming twice is trimming once. */
  lemma TrimIdempotent(s: string)
    ensures Trim(Trim(s)) == Trim(s)
  {
    var r := Trim(s);
    TrimShape(s);
    assert LeadingSpace(r) == 0;
    assert r[0..] == r;
    assert TrailingSpace(r) == 0;
  }
}
