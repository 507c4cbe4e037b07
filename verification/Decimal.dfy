/** Numbers as text: Python's %d, {:03d}, int(s) and int(s, 36) on the strings this project meets. */
module Decimal {
  import opened Bytes

  function DigitChar(d: int): char
    requires 0 <= d < 10
  {
    ('0' as int + d) as char
  }

  predicate IsDigit(c: char) { '0' <= c <= '9' }

  function DigitValue(c: char): nat
    requires IsDigit(c)
  {
    c as int - '0' as int
  }

  predicate IsDigits(s: string) { s != [] && forall i | 0 <= i < |s| :: IsDigit(s[i]) }

  function ToDecimal(n: nat): (s: string)
    ensures IsDigits(s)
  {
    if n < 10 then [DigitChar(n)] else ToDecimal(n / 10) + [DigitChar(n % 10)]
  }

  function Value(s: string): nat
    requires forall i | 0 <= i < |s| :: IsDigit(s[i])
  {
    if s == [] then 0 else 10 * Value(s[..|s| - 1]) + DigitValue(s[|s| - 1])
  }

  lemma {:induction false} ValueOfDecimal(n: nat)
    ensures Value(ToDecimal(n)) == n
  {
    var s := ToDecimal(n);
    if n < 10 {
      assert s[..0] == [];
    } else {
      ValueOfDecimal(n / 10);
      assert s[..|s| - 1] == ToDecimal(n / 10);
    }
  }

  function Zeros(n: nat): string { Repeat('0', n) }

  lemma {:induction false} ValueOfLeadingZeros(n: nat, s: string)
    requires forall i | 0 <= i < |s| :: IsDigit(s[i])
    ensures Value(Zeros(n) + s) == Value(s)
  {
    if s == [] {
      assert Zeros(n) + s == Zeros(n);
      if n > 0 {
        assert Zeros(n)[..n - 1] == Zeros(n - 1) + [];
        ValueOfLeadingZeros(n - 1, []);
      }
    } else {
      var init := s[..|s| - 1];
      assert (Zeros(n) + s)[..n + |s| - 1] == Zeros(n) + init;
      ValueOfLeadingZeros(n, init);
    }
  }

  // int(s): digits with an optional sign.
  function ParseInt(s: string): Option<int> {
    if IsDigits(s) then Some(Value(s))
    else if s != [] && (s[0] == '-' || s[0] == '+') && IsDigits(s[1..]) then
      var n: int := Value(s[1..]);
      Some(if s[0] == '-' then -n else n)
    else None
  }

  lemma ParseOfDecimal(n: nat)
    ensures ParseInt(ToDecimal(n)) == Some(n)
  {
    ValueOfDecimal(n);
  }

  lemma {:induction false} DecimalLength(n: nat)
    ensures n < 10 ==> |ToDecimal(n)| == 1
    ensures 10 <= n < 100 ==> |ToDecimal(n)| == 2
    ensures 100 <= n ==> |ToDecimal(n)| >= 3
  {
    if n >= 10 {
      DecimalLength(n / 10);
    }
  }

  lemma {:induction false} DecimalLengthGrows(a: nat, b: nat)
    requires a <= b
    ensures |ToDecimal(a)| <= |ToDecimal(b)|
  {
    if a >= 10 {
      DecimalLengthGrows(a / 10, b / 10);
    }
  }

  // ---------------------------------------------------------------- base 36

  function Base36Char(x: int): char
    requires 0 <= x < 36
  {
    if x < 10 then DigitChar(x) else ('A' as int + x - 10) as char
  }

  function Base36Digit(c: char): Option<int> {
    if IsDigit(c) then Some(c as int - '0' as int)
    else if 'A' <= c <= 'Z' then Some(c as int - 'A' as int + 10)
    else if 'a' <= c <= 'z' then Some(c as int - 'a' as int + 10)
    else None
  }

  // int2base36; out of range raises.
  function ToBase36(n: int): Option<string> {
    if 0 <= n <= 1295 then Some([Base36Char(n / 36), Base36Char(n % 36)]) else None
  }

  // int(s, 36) of a two-character string, the first of which may be a sign.
  function ParseBase36(s: string): Option<int>
    requires |s| == 2
  {
    match Base36Digit(s[1])
    case None => None
    case Some(low) =>
      if s[0] == '-' then Some(-low)
      else if s[0] == '+' then Some(low)
      else
        match Base36Digit(s[0])
        case None => None
        case Some(high) => Some(36 * high + low)
  }

  lemma ParseOfBase36(n: int)
    requires 0 <= n <= 1295
    ensures ParseBase36(ToBase36(n).value) == Some(n)
  {
  }
}
