/** The `i8` range and the decimal text Rust's `Display` gives an integer. */
module Decimal {

  const MinI8: int := -128
  const MaxI8: int := 127

  /** Values of Rust's `i8`. */
  type I8 = x: int | MinI8 <= x <= MaxI8

  predicate IsDigit(c: char) {
    '0' <= c <= '9'
  }

  function DigitChar(d: int): (c: char)
    requires 0 <= d < 10
  {
    (('0' as int) + d) as char
  }

  function DigitValue(c: char): int
    requires IsDigit(c)
  {
    c as int - '0' as int
  }

  predicate AllDigits(s: string) {
    forall i :: 0 <= i < |s| ==> IsDigit(s[i])
  }

  /** A decimal numeral: an optional minus sign followed by at least one digit. */
  predicate Numeral(s: string) {
    if |s| > 0 && s[0] == '-' then |s| > 1 && AllDigits(s[1..])
    else |s| > 0 && AllDigits(s)
  }

  /** Decimal digits of a natural number, most significant first, no leading zero. */
  function ShowNat(n: nat): (s: string)
    ensures |s| > 0 && AllDigits(s)
    ensures n > 0 ==> s[0] != '0'
    ensures n < 10 <==> |s| == 1
    decreases n
  {
    if n < 10 then [DigitChar(n)] else ShowNat(n / 10) + [DigitChar(n % 10)]
  }

  /** `format!("{}", n)` for a signed integer. */
  function Show(n: int): (s: string)
    ensures Numeral(s)
    ensures forall j :: 0 <= j < |s| ==> s[j] == '-' || IsDigit(s[j])
    ensures n < 0 <==> s[0] == '-'
    ensures n > 0 ==> s[0] != '0'
    ensures s[0] == '0' ==> s == "0"
    ensures n < 0 ==> s[1] != '0'
  {
    if n < 0 then "-" + ShowNat(-n) else ShowNat(n)
  }

  /** Value of a string of digits, read most significant first. */
  function ParseNat(s: string): nat
    requires |s| > 0 && AllDigits(s)
    decreases |s|
  {
    if |s| == 1 then DigitValue(s[0])
    else 10 * ParseNat(s[..|s| - 1]) + DigitValue(s[|s| - 1])
  }

  /** Value of a decimal numeral with an optional minus sign. */
  function Parse(s: string): int
    requires Numeral(s)
  {
    if s[0] == '-' then 0 - ParseNat(s[1..]) else ParseNat(s)
  }

  lemma {:induction false} ParseShowNat(n: nat)
    ensures ParseNat(ShowNat(n)) == n
    decreases n
  {
    if n >= 10 {
      var s := ShowNat(n);
      assert s[..|s| - 1] == ShowNat(n / 10);
      ParseShowNat(n / 10);
    }
  }

  /** Reading back the text `Show` prints gives the integer that was printed. */
  lemma ParseShow(n: int)
    ensures Parse(Show(n)) == n
  {
    var s := Show(n);
    if n < 0 {
      assert s == "-" + ShowNat(-n);
      assert s[1..] == ShowNat(-n);
      ParseShowNat(-n);
      assert Parse(s) == 0 - ParseNat(ShowNat(-n));
    } else {
      assert s == ShowNat(n);
      ParseShowNat(n);
    }
  }

  /** Distinct integers print as distinct text. */
  lemma ShowInjective(m: int, n: int)
    ensures Show(m) == Show(n) ==> m == n
  {
    ParseShow(m);
    ParseShow(n);
  }
}
