/** Decimal integers as text. */
module Numerals {
  import opened Outcomes

  predicate IsDigit(c: char)
  {
    '0' <= c <= '9'
  }

  function DigitChar(d: nat): char
    requires d < 10
  {
    ('0' as int + d) as char
  }

  function DigitValue(c: char): nat
    requires IsDigit(c)
  {
    c as int - '0' as int
  }

  function ShowNat(n: nat): (s: string)
    ensures s != ""
  {
    if n < 10 then [DigitChar(n)] else ShowNat(n / 10) + [DigitChar(n % 10)]
  }

  /** `str(n)` */
  function Show(n: int): string
  {
    if n < 0 then "-" + ShowNat(-n) else ShowNat(n)
  }

  function ParseNat(s: string): Option<nat>
  {
    if s == "" || !IsDigit(s[|s| - 1]) then None
    else if |s| == 1 then Some(DigitValue(s[0]))
    else
      var high :- ParseNat(s[..|s| - 1]);
      Some(10 * high + DigitValue(s[|s| - 1]))
  }

  /** `int(s)` for plain decimal text; anything else is a ValueError. */
  function ParseInt(s: string): Option<int>
  {
    if s != "" && s[0] == '-' then
      var n :- ParseNat(s[1..]);
      var m: int := n;
      Some(-m)
    else if s != "" && s[0] == '+' then ParseNat(s[1..])
    else ParseNat(s)
  }

  lemma {:induction false} ParseShowNat(n: nat)
    ensures ParseNat(ShowNat(n)) == Some(n)
    ensures IsDigit(ShowNat(n)[0])
  {
    if n >= 10 {
      ParseShowNat(n / 10);
      var s := ShowNat(n);
      assert s[..|s| - 1] == ShowNat(n / 10);
    }
  }

  lemma ParseShow(n: int)
    ensures ParseInt(Show(n)) == Some(n)
  {
    var s, m := Show(n), if n < 0 then -n else n;
    ParseShowNat(m);
    if n < 0 {
      assert s[1..] == ShowNat(m);
    } else {
      assert s == ShowNat(m) && IsDigit(s[0]);
    }
  }

  lemma {:induction false} NotDigits(s: string, c: char)
    requires c in s && !IsDigit(c)
    ensures ParseNat(s) == None
  {
    if s[|s| - 1] != c {
      assert s == s[..|s| - 1] + [s[|s| - 1]];
      NotDigits(s[..|s| - 1], c);
    }
  }

  /** Text with any other character in it is not a number. */
  lemma NotANumber(s: string, c: char)
    requires c in s && !IsDigit(c) && c != '-' && c != '+'
    ensures ParseInt(s) == None
  {
    NotDigits(s, c);
    assert s == [s[0]] + s[1..];
    if s[0] != c {
      NotDigits(s[1..], c);
    }
  }

  predicate NumeralChar(c: char)
  {
    IsDigit(c) || c == '-'
  }

  lemma {:induction false} ShowNatChars(n: nat)
    ensures forall i :: 0 <= i < |ShowNat(n)| ==> IsDigit(ShowNat(n)[i])
  {
    if n >= 10 {
      ShowNatChars(n / 10);
    }
  }

  lemma ShowChars(n: int)
    ensures Show(n) != "" && forall i :: 0 <= i < |Show(n)| ==> NumeralChar(Show(n)[i])
  {
    ShowNatChars(if n < 0 then -n else n);
  }
}
