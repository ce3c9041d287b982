/** Decimal text of a natural number, as Go's strconv and %d print it, and its reading back. */
module Decimal {
  function Digit(d: nat): (c: char)
    requires d < 10
    ensures '0' <= c <= '9'
  {
    '0' + d as char
  }

  predicate IsDigit(c: char) {
    '0' <= c <= '9'
  }

  function Dec(n: nat): string {
    if n < 10 then [Digit(n)] else Dec(n / 10) + [Digit(n % 10)]
  }

  function DigitValue(c: char): nat {
    if IsDigit(c) then (c - '0') as nat else 0
  }

  function Undec(s: string): nat {
    if s == [] then 0 else 10 * Undec(s[..|s| - 1]) + DigitValue(s[|s| - 1])
  }

  lemma {:induction false} DecDigits(n: nat)
    ensures |Dec(n)| > 0
    ensures forall i :: 0 <= i < |Dec(n)| ==> IsDigit(Dec(n)[i])
  {
    if n >= 10 {
      DecDigits(n / 10);
    }
  }

  lemma {:induction false} UndecDec(n: nat)
    ensures Undec(Dec(n)) == n
  {
    DecDigits(n);
    if n >= 10 {
      UndecDec(n / 10);
      assert Dec(n)[..|Dec(n)| - 1] == Dec(n / 10);
    } else {
      assert Dec(n)[..0] == [];
    }
  }

  lemma DecInjective(a: nat, b: nat)
    requires Dec(a) == Dec(b)
    ensures a == b
  {
    UndecDec(a);
    UndecDec(b);
  }

  /** A number followed by text that does not begin with a digit splits in one way only. */
  lemma NumberThenText(a: nat, s: string, b: nat, t: string)
    requires Dec(a) + s == Dec(b) + t
    requires s == [] || !IsDigit(s[0])
    requires t == [] || !IsDigit(t[0])
    ensures a == b && s == t
  {
    DecDigits(a);
    DecDigits(b);
    var whole := Dec(a) + s;
    assert s != [] ==> whole[|Dec(a)|] == s[0];
    assert t != [] ==> whole[|Dec(b)|] == t[0];
    assert forall i :: 0 <= i < |Dec(a)| ==> IsDigit(whole[i]);
    assert forall i :: 0 <= i < |Dec(b)| ==> IsDigit(whole[i]);
    assert |Dec(a)| == |Dec(b)|;
    assert Dec(a) == whole[..|Dec(a)|] == Dec(b);
    assert s == whole[|Dec(a)|..] == t;
    DecInjective(a, b);
  }
}
