/** Decimal numbers as text, as printed by format strings and read back. */
module Decimal {

  predicate IsDigits(s: string) {
    forall i :: 0 <= i < |s| ==> '0' <= s[i] <= '9'
  }

  function Digit(n: nat): char
    requires n < 10
  {
    "0123456789"[n]
  }

  function Print(n: nat): (s: string)
    ensures s != "" && IsDigits(s)
  {
    if n < 10 then [Digit(n)] else Print(n / 10) + [Digit(n % 10)]
  }

  /** At least `width` characters, filled up with zeros on the left. */
  function PrintPadded(n: nat, width: nat): (s: string)
    ensures s != "" && IsDigits(s)
  {
    Zeros(width - |Print(n)|) + Print(n)
  }

  function Zeros(count: int): (s: string)
    ensures IsDigits(s)
  {
    if count <= 0 then "" else "0" + Zeros(count - 1)
  }

  lemma PaddedDigit(n: nat, zeros: nat)
    requires n < 10
    ensures PrintPadded(n, zeros + 1) == Zeros(zeros) + [Digit(n)]
  {
  }

  lemma TwoDigits(n: nat)
    requires 10 <= n < 100
    ensures Print(n) == [Digit(n / 10), Digit(n % 10)]
  {
  }

  lemma SixZeros()
    ensures Zeros(2) == "00" && Zeros(6) == "000000"
  {
    assert Zeros(1) == "0" + Zeros(0) == "0";
    assert Zeros(2) == "0" + Zeros(1) == "00";
    assert Zeros(3) == "0" + Zeros(2) == "000";
    assert Zeros(4) == "0" + Zeros(3) == "0000";
    assert Zeros(5) == "0" + Zeros(4) == "00000";
  }

  /** The value of a string of digits, leading zeros included. */
  function Parse(s: string): nat
    requires IsDigits(s)
  {
    if s == "" then 0
    else 10 * Parse(s[..|s| - 1]) + (s[|s| - 1] as int - '0' as int)
  }

  lemma {:induction false} ParsePrint(n: nat)
    ensures Parse(Print(n)) == n
  {
    var s := Print(n);
    if n >= 10 {
      ParsePrint(n / 10);
      assert s[..|s| - 1] == Print(n / 10);
    } else {
      assert s[..|s| - 1] == "";
    }
  }

  lemma {:induction false} ParseZeros(count: int, s: string)
    requires IsDigits(s)
    ensures Parse(Zeros(count) + s) == Parse(s)
  {
    if count <= 0 {
      assert Zeros(count) + s == s;
    } else {
      ParseZeros(count - 1, s);
      ZerosStep(count, s);
      ParseLeadingZero(Zeros(count - 1) + s);
    }
  }

  lemma ZerosStep(count: int, s: string)
    requires count > 0
    ensures Zeros(count) + s == "0" + (Zeros(count - 1) + s)
  {
  }

  lemma {:induction false} ParseLeadingZero(s: string)
    requires IsDigits(s)
    ensures Parse("0" + s) == Parse(s)
  {
    if s == "" {
      assert ("0" + s)[..0] == "";
    } else {
      assert ("0" + s)[..|"0" + s| - 1] == "0" + s[..|s| - 1];
      ParseLeadingZero(s[..|s| - 1]);
    }
  }

  /** A padded number reads back as itself, whatever the padding. */
  lemma ParsePadded(n: nat, width: nat)
    ensures Parse(PrintPadded(n, width)) == n
  {
    ParseZeros(width - |Print(n)|, Print(n));
    ParsePrint(n);
  }
}
