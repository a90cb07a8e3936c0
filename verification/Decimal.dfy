/** Decimal numerals: str(n), and int(text) for an optional sign and ASCII digits. */
module Decimal {
  import opened Wrappers

  predicate AllDigits(s: string) {
    forall k :: 0 <= k < |s| ==> '0' <= s[k] <= '9'
  }

  function Print(n: nat): (s: string)
    ensures s != "" && AllDigits(s)
  {
    if n < 10 then [('0' as int + n) as char] else Print(n / 10) + [('0' as int + n % 10) as char]
  }

  predicate Digits(s: string) {
    s != "" && AllDigits(s)
  }

  function Value(s: string): nat
    requires AllDigits(s)
  {
    if s == "" then 0
    else
      10 * Value(s[..|s| - 1]) + (s[|s| - 1] as int - '0' as int)
  }

  function Parse(s: string): Option<int> {
    if s != "" && s[0] == '-' then
      if Digits(s[1..]) then Some(-(Value(s[1..]) as int)) else None
    else
      var digits := if s != "" && s[0] == '+' then s[1..] else s;
      if Digits(digits) then Some(Value(digits)) else None
  }

  function PowerOfTen(n: nat): nat {
    if n == 0 then 1 else 10 * PowerOfTen(n - 1)
  }

  // Positional: a digit counts ten times as much as the one to its right.
  lemma {:induction false} ValueInTwo(a: string, b: string)
    requires AllDigits(a) && AllDigits(b)
    ensures AllDigits(a + b) && Value(a + b) == Value(a) * PowerOfTen(|b|) + Value(b)
    decreases |b|
  {
    if b == "" {
      assert a + b == a;
    } else {
      var front, last := b[..|b| - 1], b[|b| - 1];
      assert a + b == a + front + [last] && b == front + [last];
      ValueInTwo(a, front);
      OneMoreDigit(a + front, last);
      OneMoreDigit(front, last);
      assert PowerOfTen(|b|) == 10 * PowerOfTen(|front|);
      hide *;
      TenTimes(Value(a), PowerOfTen(|front|), Value(front), last as int - '0' as int);
    }
  }

  lemma TenTimes(v: int, power: int, front: int, last: int)
    ensures 10 * (v * power + front) + last == v * (10 * power) + (10 * front + last)
  {
  }

  lemma OneMoreDigit(s: string, digit: char)
    requires AllDigits(s) && '0' <= digit <= '9'
    ensures AllDigits(s + [digit]) && Value(s + [digit]) == 10 * Value(s) + (digit as int - '0' as int)
  {
    assert (s + [digit])[..|s|] == s;
  }

  // A number's numeral has no superfluous zero in front, so it is the only one.
  lemma {:induction false} PrintIsShort(n: nat)
    ensures Print(n)[0] == '0' ==> n == 0 && Print(n) == "0"
  {
    if n >= 10 {
      PrintIsShort(n / 10);
    }
  }

  // An optional sign, and at least one digit.
  lemma ParseExactly(s: string, v: int)
    ensures Parse(s) == Some(v) <==>
              exists digits: string ::
                && digits != "" && AllDigits(digits)
                && (((s == digits || s == "+" + digits) && v == Value(digits))
                    || (s == "-" + digits && v == -(Value(digits) as int)))
  {
    if s != "" && s[0] in "+-" {
      assert s == [s[0]] + s[1..];
    }
    if digits: string :| digits != "" && AllDigits(digits) && s in {"+" + digits, "-" + digits} {
      assert s[1..] == digits;
    }
  }

  lemma {:induction false} ValueOfPrint(n: nat)
    ensures Value(Print(n)) == n
  {
    if n >= 10 {
      ValueOfPrint(n / 10);
      var s := Print(n);
      assert s[..|s| - 1] == Print(n / 10);
    } else {
      assert Print(n)[..0] == "";
    }
  }

  lemma ParsePrint(n: nat)
    ensures Parse(Print(n)) == Some(n)
  {
    ValueOfPrint(n);
  }
}
