/** Decimal numbers as text: Go's strconv.Itoa and strconv.Atoi on 64-bit integers. */
module Numbers {
  datatype Parsed = NotANumber | Number(value: int)

  const LIMIT := 0x8000_0000_0000_0000

  predicate InRange(n: int) {
    -LIMIT <= n < LIMIT
  }

  predicate IsDigit(c: char) {
    '0' <= c <= '9'
  }

  predicate AllDigits(s: string) {
    forall i :: 0 <= i < |s| ==> IsDigit(s[i])
  }

  function Digit(n: int): (c: char)
    requires 0 <= n < 10
    ensures IsDigit(c) && c as int - '0' as int == n
  {
    ('0' as int + n) as char
  }

  function Digits(n: nat): (s: string)
    ensures s != "" && AllDigits(s)
  {
    if n < 10 then [Digit(n)] else Digits(n / 10) + [Digit(n % 10)]
  }

  function Itoa(n: int): string {
    if n < 0 then "-" + Digits(-n) else Digits(n)
  }

  /** The value of a string of digits. */
  function DigitsValue(s: string): nat
    requires AllDigits(s)
  {
    if s == "" then 0
    else
      assert IsDigit(s[|s| - 1]);
      10 * DigitsValue(s[..|s| - 1]) + (s[|s| - 1] as int - '0' as int)
  }

  function Atoi(s: string): Parsed {
    var sign := if s != "" && s[0] == '-' then -1 else 1;
    var digits := if s != "" && (s[0] == '-' || s[0] == '+') then s[1..] else s;
    if digits == "" || !AllDigits(digits) then NotANumber
    else
      var n := sign * DigitsValue(digits);
      if InRange(n) then Number(n) else NotANumber
  }

  lemma {:induction false} DigitsRoundTrip(n: nat)
    ensures DigitsValue(Digits(n)) == n
  {
    if n < 10 {
      assert [Digit(n)][..0] == "";
    } else {
      DigitsRoundTrip(n / 10);
      var s := Digits(n / 10);
      assert (s + [Digit(n % 10)])[..|s|] == s;
    }
  }

  lemma ItoaRoundTrip(n: int)
    requires InRange(n)
    ensures Atoi(Itoa(n)) == Number(n)
  {
    var s := Digits(if n < 0 then -n else n);
    DigitsRoundTrip(if n < 0 then -n else n);
    assert IsDigit(s[0]);
    if n < 0 {
      assert ("-" + s)[1..] == s;
    }
  }
}
