/**
 * The decimal rendering of a natural number that a JavaScript template
 * literal produces (`${n}` for a non-negative integer: no sign, no leading
 * zeros), and the vote identifiers the mock database builds from it.
 */
module Decimal {

  predicate IsDigit(c: char) { '0' <= c <= '9' }

  function DigitChar(d: nat): (c: char)
    requires d < 10
    ensures IsDigit(c) && c as int - '0' as int == d
  {
    ('0' as int + d) as char
  }

  /** `${n}` for a natural number. */
  function NatToString(n: nat): (s: string)
    ensures |s| >= 1
    ensures forall i :: 0 <= i < |s| ==> IsDigit(s[i])
    ensures |s| > 1 ==> s[0] != '0'
  {
    if n < 10 then [DigitChar(n)] else NatToString(n / 10) + [DigitChar(n % 10)]
  }

  /** The value of a string of decimal digits, most significant first. */
  function DigitsValue(s: string): nat
    requires forall i :: 0 <= i < |s| ==> IsDigit(s[i])
  {
    if s == [] then 0
    else
      var last := s[|s| - 1];
      assert IsDigit(last);
      DigitsValue(s[..|s| - 1]) * 10 + (last as int - '0' as int)
  }

  /** Reading the rendering back gives the number: the rendering loses nothing. */
  lemma {:induction false} NatToStringRoundTrip(n: nat)
    ensures DigitsValue(NatToString(n)) == n
  {
    var s := NatToString(n);
    if n >= 10 {
      NatToStringRoundTrip(n / 10);
      assert s[..|s| - 1] == NatToString(n / 10);
    }
  }

  /** Distinct numbers render differently. */
  lemma NatToStringInjective(a: nat, b: nat)
    requires NatToString(a) == NatToString(b)
    ensures a == b
  {
    NatToStringRoundTrip(a);
    NatToStringRoundTrip(b);
  }

  /** The identifier `vote-${n}` the mock database gives its n-th vote. */
  function VoteId(n: nat): (id: string)
    ensures |id| > 5 && id[..5] == "vote-"
    ensures id[5..] == NatToString(n)
  {
    "vote-" + NatToString(n)
  }

  /** Distinct positions give distinct vote identifiers. */
  lemma VoteIdInjective(a: nat, b: nat)
    requires VoteId(a) == VoteId(b)
    ensures a == b
  {
    assert NatToString(a) == VoteId(a)[5..];
    NatToStringInjective(a, b);
  }
}
