/**
 * Python's str() on integers: the decimal spelling used for dictionary keys such
 * as "0", "1", "12" and "-3". ParseNat reads a digit string back, and the round
 * trip shows that distinct integers get distinct keys.
 */
module Decimal {

  predicate IsDigit(c: char)
  {
    '0' <= c <= '9'
  }

  function DigitChar(d: nat): (c: char)
    requires d < 10
    ensures IsDigit(c) && (c as int) - ('0' as int) == d
  {
    (('0' as int) + d) as char
  }

  /** str(n) for n >= 0: the shortest decimal spelling, without sign. */
  function NatToString(n: nat): (s: string)
    ensures 1 <= |s|
    ensures forall i :: 0 <= i < |s| ==> IsDigit(s[i])
    decreases n
  {
    if n < 10 then [DigitChar(n)] else NatToString(n / 10) + [DigitChar(n % 10)]
  }

  /** The number of characters of str(i) in front of its digits: 1 for the minus sign, else 0. */
  function SignWidth(i: int): nat
  {
    if i < 0 then 1 else 0
  }

  /** str(i) for any integer: a minus sign in front of the magnitude when negative. */
  function IntToString(i: int): (s: string)
    ensures 1 <= |s|
  {
    if i < 0 then "-" + NatToString(-i) else NatToString(i)
  }

  function DigitValue(c: char): (d: nat)
    requires IsDigit(c)
    ensures d < 10 && DigitChar(d) == c
  {
    (c as int) - ('0' as int)
  }

  /** The value of a string of decimal digits. */
  function ParseNat(s: string): nat
    requires forall i :: 0 <= i < |s| ==> IsDigit(s[i])
  {
    if s == [] then 0
    else 10 * ParseNat(s[..|s| - 1]) + DigitValue(s[|s| - 1])
  }

  lemma {:induction false} ParseNatToString(n: nat)
    ensures ParseNat(NatToString(n)) == n
    decreases n
  {
    var s := NatToString(n);
    if n >= 10 {
      ParseNatToString(n / 10);
      assert s[..|s| - 1] == NatToString(n / 10);
    }
  }

  lemma NatToStringInjective(a: nat, b: nat)
    ensures NatToString(a) == NatToString(b) <==> a == b
  {
    if NatToString(a) == NatToString(b) {
      ParseNatToString(a);
      ParseNatToString(b);
    }
  }

  /**
   * str(i) starts with a minus sign exactly when i is negative; the rest is
   * decimal digits that read back as the magnitude of i.
   */
  lemma IntToStringReadsBack(i: int)
    ensures SignWidth(i) < |IntToString(i)|
    ensures IntToString(i)[0] == '-' <==> i < 0
    ensures forall k :: SignWidth(i) <= k < |IntToString(i)| ==> IsDigit(IntToString(i)[k])
    ensures ParseNat(IntToString(i)[SignWidth(i)..]) == if i < 0 then -i else i
  {
    var s := IntToString(i);
    if i < 0 {
      ParseNatToString(-i);
      assert s[1..] == NatToString(-i);
    } else {
      ParseNatToString(i);
      assert s[0..] == NatToString(i);
    }
  }

  lemma IntToStringInjective(a: int, b: int)
    ensures IntToString(a) == IntToString(b) <==> a == b
  {
    IntToStringReadsBack(a);
    IntToStringReadsBack(b);
    var s, t := IntToString(a), IntToString(b);
    if s == t {
      assert SignWidth(a) == SignWidth(b);
      assert ParseNat(s[SignWidth(a)..]) == ParseNat(t[SignWidth(b)..]);
    }
  }

  /** A string with a character other than a digit, such as "0_1", is no str(i) of a non-negative i. */
  lemma NotADecimalKey(s: string, j: nat, i: nat)
    requires j < |s| && !IsDigit(s[j])
    ensures s != NatToString(i)
  {
  }
}
