/** Decimal numbers as text: printing them and Rust's `str::parse::<i64>`. */
module Decimal {
  import opened Text

  const I64_MAX: int := 0x7FFF_FFFF_FFFF_FFFF

  predicate AllDigits(s: string) {
    forall i :: 0 <= i < |s| ==> IsDigit(s[i])
  }

  function DigitChar(n: nat): (c: char)
    requires n < 10
    ensures IsDigit(c)
  {
    (n + '0' as int) as char
  }

  function Value(s: string): nat
    requires AllDigits(s)
  {
    if s == "" then 0 else Value(Front(s)) * 10 + (Last(s) as int - '0' as int)
  }

  /** Plain decimal, no leading zero. */
  function Dec(n: nat): (s: string)
    ensures s != "" && AllDigits(s)
  {
    if n < 10 then [DigitChar(n)] else Dec(n / 10) + [DigitChar(n % 10)]
  }

  lemma ValueSnoc(s: string, c: char)
    requires AllDigits(s) && IsDigit(c)
    ensures AllDigits(s + [c])
    ensures Value(s + [c]) == Value(s) * 10 + (c as int - '0' as int)
  {
  }

  lemma {:induction false} ValueDec(n: nat)
    ensures Value(Dec(n)) == n
  {
    if n < 10 {
      ValueSnoc("", DigitChar(n));
      assert "" + [DigitChar(n)] == [DigitChar(n)];
    } else {
      ValueDec(n / 10);
      ValueSnoc(Dec(n / 10), DigitChar(n % 10));
    }
  }

  /** An optional sign and at least one digit, within the range of a signed 64-bit integer. */
  function ParseI64(s: string): (r: Option<int>)
    ensures r.Some? ==> -I64_MAX - 1 <= r.value <= I64_MAX
  {
    if s == "" then None
    else
      var body := if s[0] == '+' || s[0] == '-' then s[1..] else s;
      if body == "" || !AllDigits(body) then None
      else
        var n: int := if s[0] == '-' then -(Value(body) as int) else Value(body);
        if -I64_MAX - 1 <= n <= I64_MAX then Some(n) else None
  }

  /** Unsigned digits parse to their value as long as it fits. */
  lemma ParseDigits(s: string)
    requires s != "" && AllDigits(s)
    ensures ParseI64(s) == if Value(s) <= I64_MAX then Some(Value(s)) else None
  {
  }

  /** A sign, or none, and digits. */
  ghost predicate Numeral(s: string, sign: string, digits: string) {
    (sign == "" || sign == "+" || sign == "-") && s == sign + digits && digits != "" && AllDigits(digits)
  }

  ghost function Signed(sign: string, value: nat): int {
    if sign == "-" then -(value as int) else value
  }

  lemma NumeralIsRead(s: string, sign: string, digits: string)
    requires Numeral(s, sign, digits)
    ensures var n := Signed(sign, Value(digits));
            ParseI64(s) == if -0x8000_0000_0000_0000 <= n < 0x8000_0000_0000_0000 then Some(n) else None
  {
    if sign == "" {
      assert s == digits && IsDigit(s[0]);
    } else {
      assert s[0] == sign[0] && s[1..] == digits;
    }
  }

  /** A text parses to a number exactly if it is such a numeral and the number fits 64 bits. */
  lemma ParseMeans(s: string, n: int)
    ensures ParseI64(s) == Some(n)
            <==> && -0x8000_0000_0000_0000 <= n < 0x8000_0000_0000_0000
                 && exists sign, digits :: Numeral(s, sign, digits) && n == Signed(sign, Value(digits))
  {
    if ParseI64(s) == Some(n) {
      var sign := if s[0] == '+' then "+" else if s[0] == '-' then "-" else "";
      var digits := if sign == "" then s else s[1..];
      assert s == sign + digits;
      assert Numeral(s, sign, digits);
      NumeralIsRead(s, sign, digits);
    }
    if sign, digits :| Numeral(s, sign, digits) && n == Signed(sign, Value(digits)) {
      NumeralIsRead(s, sign, digits);
    }
  }
}
