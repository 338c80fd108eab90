/** Decimal numbers: the digits sprintf prints for an integer, and what parse_number takes from
    the input. The value of a number is exact (a real); rounding to double is not modelled. */
module NumberCodec {
  import opened Bytes

  // ---------- Writing ----------

  function Digits(n: nat): (s: bytes)
    ensures |s| > 0
  {
    if n < 10 then [DIGIT_0 + n as byte] else Digits(n / 10) + [DIGIT_0 + (n % 10) as byte]
  }

  function Decimal(n: int): bytes {
    if n < 0 then [MINUS] + Digits(-n) else Digits(n)
  }

  // ---------- Reading ----------

  /** The bytes the copy loop of parse_number lets through. */
  predicate IsNumberByte(b: byte) {
    IsDigit(b) || b == PLUS || b == MINUS || b == LOWER_E || b == UPPER_E || b == DOT
  }

  predicate IsDigit(b: byte) {
    DIGIT_0 <= b <= DIGIT_9
  }

  /** sizeof(number_c_string) - 1 */
  const COPY_LIMIT: nat := 63

  /** How many leading bytes the copy loop takes. */
  function Run(s: bytes, limit: nat): (n: nat)
    ensures n <= |s| && n <= limit
    ensures forall i | 0 <= i < n :: IsNumberByte(s[i])
    ensures n < |s| && n < limit ==> !IsNumberByte(s[n])
  {
    if limit == 0 || s == [] || !IsNumberByte(s[0]) then 0 else 1 + Run(s[1..], limit - 1)
  }

  function DigitSpan(s: bytes): (n: nat)
    ensures n <= |s|
    ensures forall i | 0 <= i < n :: IsDigit(s[i])
  {
    if s == [] || !IsDigit(s[0]) then 0 else 1 + DigitSpan(s[1..])
  }

  function NatOf(s: bytes): nat
    requires forall i | 0 <= i < |s| :: IsDigit(s[i])
  {
    if s == [] then 0
    else
      assert IsDigit(s[|s| - 1]);
      NatOf(s[..|s| - 1]) * 10 + (s[|s| - 1] - DIGIT_0) as nat
  }

  function Pow10(e: int): real
    decreases if e < 0 then -e else e
  {
    if e == 0 then 1.0 else if e > 0 then 10.0 * Pow10(e - 1) else Pow10(e + 1) / 10.0
  }

  function SignLength(s: bytes): (n: nat)
    ensures n <= |s|
  {
    if s != [] && (s[0] == PLUS || s[0] == MINUS) then 1 else 0
  }

  /** Length of the radix character and the digits behind it. */
  function FractionLength(s: bytes): (n: nat)
    ensures n <= |s|
    ensures forall i | 1 <= i < n :: IsDigit(s[i])
  {
    if s != [] && s[0] == DOT then
      var n := DigitSpan(s[1..]);
      assert forall i | 1 <= i < 1 + n :: s[i] == s[1..][i - 1];
      1 + n
    else 0
  }

  /** Length of an exponent part; 0 when no digit follows the e. */
  function ExponentLength(s: bytes): (n: nat)
    ensures n <= |s|
  {
    if s == [] || (s[0] != LOWER_E && s[0] != UPPER_E) then 0
    else
      var g := SignLength(s[1..]);
      var n := DigitSpan(s[1..][g..]);
      if n == 0 then 0 else 1 + g + n
  }

  function ExponentValue(s: bytes): int {
    if ExponentLength(s) == 0 then 0
    else
      var g := SignLength(s[1..]);
      var t := s[1..][g..];
      var e: int := NatOf(t[..DigitSpan(t)]);
      if s[1] == MINUS then -e else e
  }

  function Scaled(digits: bytes, e: int): real
    requires forall i | 0 <= i < |digits| :: IsDigit(digits[i])
  {
    NatOf(digits) as real * Pow10(e)
  }

  /** strtod on the bytes the copy loop lets through: the value of the longest prefix that is a
      decimal number, and its length; None when there is no conversion. */
  function Strtod(s: bytes): (r: Option<(real, nat)>)
    ensures r.Some? ==> 1 <= r.value.1 <= |s|
  {
    var g := SignLength(s);
    var i := DigitSpan(s[g..]);
    var f := FractionLength(s[g + i..]);
    if i == 0 && f <= 1 then None
    else
      var m := g + i + f;
      var whole := s[g..][..i];
      var fraction := if f == 0 then [] else s[g + i..][1..f];
      assert forall j | 0 <= j < |fraction| :: fraction[j] == s[g + i..][j + 1];
      var magnitude := Scaled(whole + fraction, ExponentValue(s[m..]) - |fraction|);
      Some((if s[0] == MINUS then -magnitude else magnitude, m + ExponentLength(s[m..])))
  }

  function ParseNumber(s: bytes): (r: Option<(real, nat)>)
    ensures r.Some? ==> 1 <= r.value.1 <= Run(s, COPY_LIMIT) <= |s|
  {
    Strtod(s[..Run(s, COPY_LIMIT)])
  }

  // ---------- An integer reads back ----------

  /** Integers below 10^15 in magnitude: the ones "%1.15g" prints as plain digits. */
  predicate IsPlainInteger(n: int) {
    -1_000_000_000_000_000 < n < 1_000_000_000_000_000
  }

  lemma {:induction false} DigitsAreDigits(n: nat)
    ensures forall i | 0 <= i < |Digits(n)| :: IsDigit(Digits(n)[i])
    ensures NatOf(Digits(n)) == n
  {
    if n < 10 {
      assert Digits(n)[..0] == [];
    } else {
      DigitsAreDigits(n / 10);
      AppendDrop(Digits(n / 10), [DIGIT_0 + (n % 10) as byte]);
      assert Digits(n)[..|Digits(n)| - 1] == Digits(n / 10);
    }
  }

  lemma {:induction false} NoLeadingZero(n: nat)
    ensures Digits(n)[0] == DIGIT_0 ==> n == 0 && |Digits(n)| == 1
  {
    if n >= 10 {
      NoLeadingZero(n / 10);
    }
  }

  function PowerOfTen(k: nat): nat {
    if k == 0 then 1 else 10 * PowerOfTen(k - 1)
  }

  lemma {:induction false} DigitsLength(n: nat, k: nat)
    requires k > 0 && n < PowerOfTen(k)
    ensures |Digits(n)| <= k
  {
    if n >= 10 {
      assert PowerOfTen(k) == 10 * PowerOfTen(k - 1);
      DigitsLength(n / 10, k - 1);
    }
  }

  lemma FifteenDigits(n: int)
    requires IsPlainInteger(n)
    ensures |Decimal(n)| <= 16
  {
    assert PowerOfTen(15) == 1_000_000_000_000_000 by {
      assert PowerOfTen(5) == 100_000;
      assert PowerOfTen(10) == 100_000 * PowerOfTen(5);
      assert PowerOfTen(15) == 100_000 * PowerOfTen(10);
    }
    DigitsLength(if n < 0 then -n else n, 15);
  }

  lemma {:induction false} SpanOfDigits(d: bytes, tail: bytes)
    requires forall i | 0 <= i < |d| :: IsDigit(d[i])
    requires tail == [] || !IsDigit(tail[0])
    ensures DigitSpan(d + tail) == |d|
  {
    if d == [] {
      assert d + tail == tail;
    } else {
      assert (d + tail)[1..] == d[1..] + tail;
      SpanOfDigits(d[1..], tail);
    }
  }

  lemma {:induction false} RunOfNumber(d: bytes, tail: bytes, limit: nat)
    requires |d| <= limit
    requires forall i | 0 <= i < |d| :: IsNumberByte(d[i])
    requires tail == [] || !IsNumberByte(tail[0])
    ensures Run(d + tail, limit) == |d|
  {
    if d == [] {
      assert d + tail == tail;
    } else {
      assert (d + tail)[1..] == d[1..] + tail;
      RunOfNumber(d[1..], tail, limit - 1);
    }
  }

  lemma StrtodDecimal(n: int)
    ensures Strtod(Decimal(n)) == Some((n as real, |Decimal(n)|))
  {
    var s := Decimal(n);
    var m := if n < 0 then -n else n;
    DigitsAreDigits(m);
    var d := Digits(m);
    var g := SignLength(s);
    assert g == if n < 0 then 1 else 0 by {
      assert IsDigit(d[0]);
    }
    assert s[g..] == d;
    SpanOfDigits(d, []);
    assert d + [] == d;
    assert s[g + |d|..] == [];
    assert d[..|d|] + [] == d;
    assert s[0] == MINUS <==> n < 0;
  }

  /** Printing an integer and parsing the text gives the integer back, whatever follows it. */
  lemma ParseDecimal(n: int, tail: bytes)
    requires IsPlainInteger(n)
    requires tail == [] || !IsNumberByte(tail[0])
    ensures ParseNumber(Decimal(n) + tail) == Some((n as real, |Decimal(n)|))
  {
    FifteenDigits(n);
    DigitsAreDigits(if n < 0 then -n else n);
    assert forall i | 0 <= i < |Decimal(n)| :: IsNumberByte(Decimal(n)[i]);
    RunOfNumber(Decimal(n), tail, COPY_LIMIT);
    AppendDrop(Decimal(n), tail);
    StrtodDecimal(n);
  }
}
