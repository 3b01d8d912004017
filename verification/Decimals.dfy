/** Decimal numerals: printing and reading undo each other. */
module Decimals {
  predicate Digit(c: char) { '0' <= c <= '9' }

  predicate Digits(s: string) { forall i :: 0 <= i < |s| ==> Digit(s[i]) }

  function DigitOf(n: nat): (c: char)
    requires n < 10
    ensures Digit(c) && c as int == '0' as int + n
  {
    ('0' as int + n) as char
  }

  function Value(s: string): nat
    requires Digits(s)
  {
    if s == "" then 0 else 10 * Value(s[..|s| - 1]) + (s[|s| - 1] as int - '0' as int)
  }

  /** The usual decimal text. */
  function Decimal(n: nat): (s: string)
    ensures s != "" && Digits(s)
  {
    if n < 10 then [DigitOf(n)] else Decimal(n / 10) + [DigitOf(n % 10)]
  }

  lemma {:induction false} DecimalHasItsValue(n: nat)
    ensures Value(Decimal(n)) == n
    ensures |Decimal(n)| > 1 ==> Decimal(n)[0] != '0'
    ensures n > 0 ==> Decimal(n)[0] != '0'
  {
    if n >= 10 {
      DecimalHasItsValue(n / 10);
      var s := Decimal(n);
      assert s[..|s| - 1] == Decimal(n / 10);
      assert s[0] == Decimal(n / 10)[0];
    }
  }

  /** No two digit texts without a leading zero have the same value. */
  lemma {:induction false} ValueHasItsDecimal(s: string)
    requires s != "" && Digits(s) && (|s| > 1 ==> s[0] != '0')
    ensures Decimal(Value(s)) == s
    ensures s[0] != '0' ==> Value(s) > 0
  {
    var front, last := s[..|s| - 1], s[|s| - 1] as int - '0' as int;
    if front == "" {
      assert Value(front) == 0;
      assert s == [DigitOf(last)];
    } else {
      ValueHasItsDecimal(front);
      var n := Value(s);
      assert n == 10 * Value(front) + last;
      assert n / 10 == Value(front) && n % 10 == last;
      assert s == front + [DigitOf(last)];
    }
  }

  // -------------------------------------------------------------------- leading zeros

  function Zeros(k: nat): string { if k == 0 then "" else "0" + Zeros(k - 1) }

  /** The decimal text of the number, after any number of zeros. */
  ghost predicate Padded(s: string, n: nat) { exists k: nat :: s == Zeros(k) + Decimal(n) }

  lemma {:induction false} ZeroAddsNothing(s: string)
    requires Digits(s)
    ensures Digits("0" + s) && Value("0" + s) == Value(s)
  {
    var t := "0" + s;
    if s == "" {
      assert t[..0] == "";
    } else {
      ZeroAddsNothing(s[..|s| - 1]);
      assert t[..|t| - 1] == "0" + s[..|s| - 1] && t[|t| - 1] == s[|s| - 1];
    }
  }

  lemma ZeroInFront(k: nat, s: string)
    ensures Zeros(k + 1) + s == "0" + (Zeros(k) + s)
  {
  }

  lemma {:induction false} ZerosAddNothing(k: nat, s: string)
    requires Digits(s)
    ensures Digits(Zeros(k) + s) && Value(Zeros(k) + s) == Value(s)
  {
    if k == 0 {
      assert Zeros(0) + s == s;
    } else {
      ZerosAddNothing(k - 1, s);
      ZeroInFront(k - 1, s);
      ZeroAddsNothing(Zeros(k - 1) + s);
    }
  }

  lemma {:induction false} ZerosThenDecimal(s: string) returns (k: nat)
    requires s != "" && Digits(s)
    ensures s == Zeros(k) + Decimal(Value(s))
  {
    if |s| > 1 && s[0] == '0' {
      var rest := s[1..];
      assert s == "0" + rest;
      k := ZerosThenDecimal(rest);
      ZeroAddsNothing(rest);
      ZeroInFront(k, Decimal(Value(rest)));
      k := k + 1;
    } else {
      k := 0;
      ValueHasItsDecimal(s);
      assert Zeros(0) + s == s;
    }
  }

  /** The digit texts of a number are its padded decimal texts. */
  lemma {:induction false} PaddedExactly(s: string, n: nat)
    ensures Padded(s, n) <==> s != "" && Digits(s) && Value(s) == n
  {
    if Padded(s, n) {
      var k: nat :| s == Zeros(k) + Decimal(n);
      DecimalHasItsValue(n);
      ZerosAddNothing(k, Decimal(n));
    }
    if s != "" && Digits(s) && Value(s) == n {
      var k := ZerosThenDecimal(s);
    }
  }
}
