/** Base58 and Base43 conversion (src/krux/baseconv.py:133-192). */
module BaseConv {
  import Arith
  import opened Bytes
  import opened Positional

  datatype Base = Base43 | Base58 {
    function Size(): nat { if Base43? then 43 else 58 }
  }

  // B58CHARS 123456789ABCDEFGHJKLMNPQRSTUVWXYZabcdefghijkmnopqrstuvwxyz
  // B43CHARS 0123456789ABCDEFGHIJKLMNOPQRSTUVWXYZ$*+-./:
  function CharOf(base: Base, d: nat): char
    requires d < base.Size()
  {
    match base
    case Base58 =>
      if d < 9 then ('1' as int + d) as char
      else if d < 17 then ('A' as int + d - 9) as char
      else if d < 22 then ('J' as int + d - 17) as char
      else if d < 33 then ('P' as int + d - 22) as char
      else if d < 44 then ('a' as int + d - 33) as char
      else ('m' as int + d - 44) as char
    case Base43 =>
      if d < 10 then ('0' as int + d) as char
      else if d < 36 then ('A' as int + d - 10) as char
      else "$*+-./:"[d - 36]
  }

  // chars.find(c)
  function DigitOf(base: Base, c: char): (r: Option<nat>)
    ensures r.Some? ==> r.value < base.Size() && CharOf(base, r.value) == c
  {
    match base
    case Base58 =>
      if '1' <= c <= '9' then Some(c as int - '1' as int)
      else if 'A' <= c <= 'H' then Some(c as int - 'A' as int + 9)
      else if 'J' <= c <= 'N' then Some(c as int - 'J' as int + 17)
      else if 'P' <= c <= 'Z' then Some(c as int - 'P' as int + 22)
      else if 'a' <= c <= 'k' then Some(c as int - 'a' as int + 33)
      else if 'm' <= c <= 'z' then Some(c as int - 'm' as int + 44)
      else None
    case Base43 =>
      if '0' <= c <= '9' then Some(c as int - '0' as int)
      else if 'A' <= c <= 'Z' then Some(c as int - 'A' as int + 10)
      else if c == '$' then Some(36)
      else if c == '*' then Some(37)
      else if c == '+' then Some(38)
      else if c == '-' then Some(39)
      else if c == '.' then Some(40)
      else if c == '/' then Some(41)
      else if c == ':' then Some(42)
      else None
  }

  const B58CHARS: string :=
    "123456789" + "ABCDEFGH" + "JKLMN" + "PQRSTUVWXYZ" + "abcdefghijk" + "mnopqrstuvwxyz"
  const B43CHARS: string := "0123456789" + "ABCDEFGHIJKLMNOPQRSTUVWXYZ" + "$*+-./:"

  /** The digits are the characters of the two alphabets, in their order. */
  lemma AlphabetIs(base: Base, d: nat)
    requires d < base.Size()
    ensures |B58CHARS| == 58 && |B43CHARS| == 43
    ensures CharOf(base, d) == if base.Base58? then B58CHARS[d] else B43CHARS[d]
  {
    if base.Base58? {
      Alphabet58(d);
    } else {
      Alphabet43(d);
    }
  }

  lemma Alphabet58(d: nat)
    requires d < 58
    ensures CharOf(Base58, d) == B58CHARS[d]
  {
    var low := "123456789" + "ABCDEFGH" + "JKLMN" + "PQRSTUVWXYZ";
    assert d < 33 ==> B58CHARS[d] == low[d];
    assert d >= 44 ==> B58CHARS[d] == "mnopqrstuvwxyz"[d - 44];
    assert 33 <= d < 44 ==> B58CHARS[d] == "abcdefghijk"[d - 33];
  }

  lemma Alphabet43(d: nat)
    requires d < 43
    ensures CharOf(Base43, d) == B43CHARS[d]
  {
    assert d >= 36 ==> B43CHARS[d] == "$*+-./:"[d - 36];
    assert 10 <= d < 36 ==> B43CHARS[d] == "ABCDEFGHIJKLMNOPQRSTUVWXYZ"[d - 10];
  }

  lemma DigitOfChar(base: Base, d: nat)
    requires d < base.Size()
    ensures DigitOf(base, CharOf(base, d)) == Some(d)
  {
  }

  ghost predicate IsText(base: Base, s: string) { forall i | 0 <= i < |s| :: DigitOf(base, s[i]).Some? }

  function ToText(base: Base, d: seq<nat>): (s: string)
    requires InBase(d, base.Size())
    ensures |s| == |d|
  {
    seq(|d|, i requires 0 <= i < |d| => CharOf(base, d[i]))
  }

  function FromText(base: Base, s: string): (d: seq<nat>)
    requires IsText(base, s)
    ensures |d| == |s| && InBase(d, base.Size())
  {
    seq(|s|, i requires 0 <= i < |s| => DigitOf(base, s[i]).value)
  }

  lemma TextRoundTrip(base: Base, d: seq<nat>, s: string)
    ensures InBase(d, base.Size()) ==> IsText(base, ToText(base, d)) && FromText(base, ToText(base, d)) == d
    ensures IsText(base, s) ==> ToText(base, FromText(base, s)) == s
  {
    hide CharOf, DigitOf;
    if InBase(d, base.Size()) {
      forall i | 0 <= i < |d|
        ensures DigitOf(base, ToText(base, d)[i]) == Some(d[i])
      {
        DigitOfChar(base, d[i]);
      }
    }
  }

  function Encoded(base: Base, v: bytes): string { ToText(base, Convert(v, 256, base.Size())) }

  function Decoded(base: Base, s: string): bytes
    requires IsText(base, s)
  {
    Convert(FromText(base, s), base.Size(), 256)
  }

  /** Decoding undoes encoding on every byte string, all-zero and empty ones included. */
  lemma DecodedOfEncoded(base: Base, v: bytes)
    ensures IsText(base, Encoded(base, v)) && Decoded(base, Encoded(base, v)) == v
  {
    hide Convert;
    TextRoundTrip(base, Convert(v, 256, base.Size()), []);
    ConvertBack(v, 256, base.Size());
  }

  /** Encoding undoes decoding on every string over the alphabet. */
  lemma EncodedOfDecoded(base: Base, s: string)
    requires IsText(base, s)
    ensures Encoded(base, Decoded(base, s)) == s
  {
    hide Convert;
    TextRoundTrip(base, [], s);
    ConvertBack(FromText(base, s), base.Size(), 256);
  }

  // ---------------------------------------------------------------- the loops

  lemma {:induction false} ValCons(x: nat, d: seq<nat>, base: nat)
    ensures Val([x] + d, base) == x * Pow(base, |d|) + Val(d, base)
  {
    if d == [] {
      assert [x] + d == [x] && [x][..0] == [];
    } else {
      var init, last := d[..|d| - 1], d[|d| - 1];
      assert ([x] + d)[..|d|] == [x] + init;
      ValCons(x, init, base);
      Distribute(x, Pow(base, |init|), Val(init, base), base);
    }
  }

  lemma Distribute(x: nat, p: nat, v: nat, base: nat)
    ensures (x * p + v) * base == x * (p * base) + v * base
  {
  }

  // The digits from the least significant up, weighted by growing powers.
  method Accumulate(d: seq<nat>, base: nat) returns (value: nat)
    ensures value == Val(d, base)
  {
    hide Val, Pow;
    Empty(base);
    value := 0;
    var power: nat := 1;
    var i := |d|;
    assert d[|d|..] == [];
    while i > 0
      invariant 0 <= i <= |d| && value == Val(d[i..], base) && power == Pow(base, |d| - i)
    {
      i := i - 1;
      assert d[i..] == [d[i]] + d[i + 1..];
      ValCons(d[i], d[i + 1..], base);
      PowStep(base, |d| - i - 1);
      value := value + d[i] * power;
      power := power * base;
    }
    assert d[0..] == d;
  }

  // Repeated division, least significant digit first.
  method Divide(value: nat, base: nat) returns (r: seq<nat>)
    requires base >= 2
    ensures r == Reversed(Digits(value, base))
  {
    hide Digits, Reversed;
    r := [];
    var n: nat := value;
    assert Digits(value, base) + Reversed<nat>([]) == Digits(value, base);
    while n >= base
      invariant Digits(value, base) == Digits(n, base) + Reversed(r)
      decreases n
    {
      DivShrinks(n, base);
      DigitsUnfold(n, base);
      var d: nat := n % base;
      ReversedSnoc(r, d);
      assert Digits(n / base, base) + [d] + Reversed(r) == Digits(n / base, base) + ([d] + Reversed(r));
      r, n := r + [d], n / base;
    }
    SmallDigits(n, base);
    if n > 0 {
      ReversedSnoc(r, n);
      r := r + [n];
    } else {
      assert Digits(n, base) + Reversed(r) == Reversed(r);
    }
    ReversedTwice(r);
  }

  lemma DigitsUnfold(n: nat, base: nat)
    requires base >= 2 && n > 0
    ensures Digits(n, base) == Digits(n / base, base) + [n % base]
  {
  }

  lemma SmallDigits(n: nat, base: nat)
    requires n < base && base >= 2
    ensures Digits(n, base) == if n == 0 then [] else [n]
  {
    assert n / base == 0 && n % base == n by { Arith.DivModUnique(0, base, n); }
  }

  function Reversed<T>(s: seq<T>): (r: seq<T>)
    ensures |r| == |s| && forall i | 0 <= i < |s| :: r[i] == s[|s| - 1 - i]
  {
    seq(|s|, i requires 0 <= i < |s| => s[|s| - 1 - i])
  }

  lemma ReversedSnoc<T>(s: seq<T>, x: T)
    ensures Reversed(s + [x]) == [x] + Reversed(s)
  {
  }

  lemma ReversedTwice<T>(s: seq<T>)
    ensures Reversed(Reversed(s)) == s
  {
  }

  // The run of zeros at the front.
  method CountZeros(d: seq<nat>) returns (n: nat)
    ensures n == LeadingZeros(d)
  {
    n := 0;
    while n < |d| && d[n] == 0
      invariant n <= |d| && forall i | 0 <= i < n :: d[i] == 0
    {
      n := n + 1;
    }
    LeadingZerosUnique(d, n);
  }

  // Both directions: value, digits, padding, reversed.
  method ConvertLoop(d: seq<nat>, base: nat, other: nat) returns (r: seq<nat>)
    requires other >= 2
    ensures r == Convert(d, base, other)
  {
    hide Digits, Val, LeadingZeros;
    var value := Accumulate(d, base);
    var result := Divide(value, other);
    var pad := CountZeros(d);
    result := result + Zeros(pad);
    r := Reversed(result);
    assert r == Zeros(pad) + Digits(value, other);
  }

  /** pure_python_base_encode */
  method Encode(base: Base, v: bytes) returns (s: string)
    ensures s == Encoded(base, v)
  {
    var digits := ConvertLoop(v, 256, base.Size());
    s := ToText(base, digits);
  }

  /** pure_python_base_decode: any character outside the alphabet raises. */
  method Decode(base: Base, s: string) returns (r: Option<bytes>)
    ensures if IsText(base, s) then r == Some(Decoded(base, s)) else r == None
  {
    hide DigitOf, CharOf, Convert;
    var digits: seq<nat> := [];
    for i := 0 to |s|
      invariant IsText(base, s[..i]) && digits == FromText(base, s[..i])
    {
      var d := DigitOf(base, s[i]);
      if d == None {
        return None;
      }
      assert s[..i + 1] == s[..i] + [s[i]];
      digits := digits + [d.value];
    }
    assert s[..|s|] == s;
    var out := ConvertLoop(digits, base.Size(), 256);
    var data: bytes := out;
    r := Some(data);
  }
}
