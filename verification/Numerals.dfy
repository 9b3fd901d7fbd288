/** Digits and their values, as `strtoul`, `atoi` and `%d` have them. */
module Numerals {
  import opened ByteStrings

  predicate IsDigit(b: byte, base: nat) {
    0 <= HexDigit(b) < base
  }

  function Number(s: Bytes, base: nat, so: nat): nat {
    if s != [] && IsDigit(s[0], base) then Number(s[1..], base, so * base + HexDigit(s[0])) else so
  }

  predicate AllDigits(s: Bytes, base: nat) {
    forall b :: b in s ==> IsDigit(b, base)
  }

  /** The value of a string of digits. */
  function Value(s: Bytes, base: nat): (r: int)
    requires AllDigits(s, base)
    ensures r >= 0
  {
    if s == [] then 0
    else
      var last := s[|s| - 1];
      assert last in s;
      Value(s[..|s| - 1], base) * base + HexDigit(last)
  }

  lemma {:induction false} NumberOfDigits(s: Bytes, t: Bytes, base: nat)
    requires AllDigits(s, base) && AllDigits(t, base)
    ensures Number(t, base, Value(s, base)) == Value(s + t, base)
    decreases |t|
  {
    if t == [] {
      assert s + t == s;
    } else {
      assert AllDigits(s + [t[0]], base);
      assert (s + [t[0]])[..|s|] == s;
      NumberOfDigits(s + [t[0]], t[1..], base);
      assert s + [t[0]] + t[1..] == s + t;
    }
  }

  /** The decimal numeral of a number. */
  function Decimal(n: nat): (r: Bytes)
    ensures r != [] && AllDigits(r, 10)
  {
    if n < 10 then [0x30 + n] else Decimal(n / 10) + [0x30 + n % 10]
  }

  lemma {:induction false} ValueOfDecimal(n: nat)
    ensures Value(Decimal(n), 10) == n
  {
    if n >= 10 {
      ValueOfDecimal(n / 10);
      var d := Decimal(n);
      assert d[..|d| - 1] == Decimal(n / 10) && d[|d| - 1] == 0x30 + n % 10;
    } else {
      assert Value([], 10) == 0;
    }
  }

  /** Reading digits gives their value, and stops at what is no digit. */
  lemma {:induction false} NumberStops(s: Bytes, t: Bytes, base: nat, so: nat)
    requires AllDigits(s, base) && (t == [] || !IsDigit(t[0], base))
    ensures Number(s + t, base, so) == Number(s, base, so)
    decreases |s|
  {
    if s == [] {
      assert s + t == t;
    } else {
      assert s[0] in s && (s + t)[1..] == s[1..] + t;
      NumberStops(s[1..], t, base, so * base + HexDigit(s[0]));
    }
  }
}
