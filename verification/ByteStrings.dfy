/**
 Bytes and byte strings. A C++ `std::string` and a `std::vector<uint8_t>` are both sequences of
 bytes here.
 */
module ByteStrings {

  type byte = b: int | 0 <= b < 256

  type Bytes = seq<byte>

  datatype Option<+T> = None | Some(value: T)

  /** The bytes of an ASCII literal. */
  function Ascii(s: string): (r: Bytes)
    ensures |r| == |s|
  {
    seq(|s|, i requires 0 <= i < |s| => (s[i] as int) % 256)
  }

  function Repeat(n: nat, b: byte): (r: Bytes)
    ensures |r| == n
    ensures forall i :: 0 <= i < n ==> r[i] == b
  {
    seq(n, _ => b)
  }

  /** The first position of `needle` in `s`, as `std::string::find` reports it. */
  function IndexOf(s: Bytes, needle: Bytes): (r: Option<nat>)
    ensures r.Some? ==> r.value + |needle| <= |s|
  {
    if needle <= s then Some(0)
    else if s == [] then None
    else
      var r := IndexOf(s[1..], needle);
      if r.None? then None else Some(r.value + 1)
  }

  /** It is a match, and there is none before it. */
  lemma {:induction false} IndexOfIsFirst(s: Bytes, needle: Bytes)
    ensures match IndexOf(s, needle)
            case None => forall i :: 0 <= i <= |s| ==> !(needle <= s[i..])
            case Some(n) => needle <= s[n..] && forall i :: 0 <= i < n ==> !(needle <= s[i..])
  {
    if !(needle <= s) && s != [] {
      IndexOfIsFirst(s[1..], needle);
      assert forall i :: 1 <= i <= |s| ==> s[1..][i - 1..] == s[i..];
    }
  }

  /** The first occurrence of a single byte is where the bytes without it end. */
  lemma {:induction false} IndexOfByte(s: Bytes, t: Bytes, b: byte)
    requires b !in s && (t == [] || t[0] == b)
    ensures IndexOf(s + t, [b]) == if t == [] then None else Some(|s|)
  {
    if s == [] {
      assert s + t == t;
      if t == [] { assert !([b] <= t); }
    } else {
      assert s[0] in s && (s + t)[1..] == s[1..] + t;
      IndexOfByte(s[1..], t, b);
    }
  }

  predicate IsSpace(b: byte) {
    b == 0x20 || 0x09 <= b <= 0x0D
  }

  function SkipSpace(s: Bytes): (r: Bytes)
    ensures |r| <= |s|
  {
    if s != [] && IsSpace(s[0]) then SkipSpace(s[1..]) else s
  }

  /** White space is skipped at one go. */
  lemma {:induction false} SpaceIsGone(s: Bytes)
    ensures SkipSpace(SkipSpace(s)) == SkipSpace(s)
  {
    if s != [] && IsSpace(s[0]) { SpaceIsGone(s[1..]); }
  }

  lemma Regroup<T>(a: seq<T>, b: seq<T>, c: seq<T>)
    ensures a + (b + c) == a + b + c
  {
  }

  function Concat(parts: seq<Bytes>): Bytes {
    if parts == [] then [] else parts[0] + Concat(parts[1..])
  }

  lemma {:induction false} ConcatAppends(a: seq<Bytes>, b: seq<Bytes>)
    ensures Concat(a + b) == Concat(a) + Concat(b)
  {
    if a == [] {
      assert a + b == b;
    } else {
      assert (a + b)[0] == a[0] && (a + b)[1..] == a[1..] + b;
      ConcatAppends(a[1..], b);
    }
  }

  /** The value of a hex digit, or -1. */
  function HexDigit(b: byte): (r: int)
    ensures -1 <= r < 16
  {
    if 0x30 <= b <= 0x39 then b - 0x30
    else if 0x61 <= b <= 0x66 then b - 0x61 + 10
    else if 0x41 <= b <= 0x46 then b - 0x41 + 10
    else -1
  }

  /** `n` bytes of a number, least significant first; higher bytes are cut off. */
  function LittleEndian(n: nat, v: nat): (r: Bytes)
    ensures |r| == n
  {
    if n == 0 then [] else [v % 256] + LittleEndian(n - 1, v / 256)
  }

  method PutLittleEndian(n: nat, v: nat) returns (out: Bytes)
    ensures out == LittleEndian(n, v)
  {
    out := [];
    var rest := v;
    for i := 0 to n
      invariant LittleEndian(n, v) == out + LittleEndian(n - i, rest)
    {
      out := out + [rest % 256];
      rest := rest / 256;
    }
  }

  /** Two bytes, most significant first; higher bytes are cut off. */
  function BigEndian16(v: nat): (r: Bytes)
    ensures |r| == 2
  {
    [(v / 256) % 256, v % 256]
  }

  // ----- exclusive or -----

  /** Bitwise exclusive or of two naturals, least significant bit first. */
  function Xor(a: nat, b: nat): nat
    decreases a + b
  {
    if a == 0 && b == 0 then 0 else 2 * Xor(a / 2, b / 2) + (a + b) % 2
  }

  lemma XorHalves(a: nat, b: nat)
    ensures Xor(a, b) / 2 == Xor(a / 2, b / 2)
    ensures Xor(a, b) % 2 == (a + b) % 2
    ensures Xor(a, b) == 2 * Xor(a / 2, b / 2) + (a + b) % 2
  {
  }

  lemma {:induction false} XorZero(a: nat)
    ensures Xor(a, 0) == a
  {
    if a == 0 {
    } else {
      XorZero(a / 2);
    }
  }

  lemma {:induction false} XorCommutes(a: nat, b: nat)
    ensures Xor(a, b) == Xor(b, a)
    decreases a + b
  {
    if a + b > 0 { XorCommutes(a / 2, b / 2); }
  }

  /** Exclusive or undoes itself: the law behind CBC decryption, IV recovery and the session key. */
  lemma {:induction false} XorCancels(a: nat, b: nat)
    ensures Xor(Xor(a, b), b) == a
    decreases a + b
  {
    if a + b > 0 {
      XorCancels(a / 2, b / 2);
      XorHalves(a, b);
      XorHalves(Xor(a, b), b);
      ParityCancels(a, b, Xor(a, b));
    }
  }

  lemma ParityCancels(a: nat, b: nat, x: nat)
    requires x % 2 == (a + b) % 2
    ensures (x + b) % 2 == a % 2
  {
  }

  function Pow2(n: nat): nat {
    if n == 0 then 1 else 2 * Pow2(n - 1)
  }

  lemma {:induction false} XorBound(n: nat, a: nat, b: nat)
    requires a < Pow2(n) && b < Pow2(n)
    ensures Xor(a, b) < Pow2(n)
  {
    if n == 0 {
    } else {
      XorBound(n - 1, a / 2, b / 2);
      XorHalves(a, b);
    }
  }

  function XorByte(a: byte, b: byte): (r: byte) {
    assert Pow2(8) == 256;
    XorBound(8, a, b);
    Xor(a, b)
  }

  /** Position-wise exclusive or of two strings of the same length. */
  function XorBytes(a: Bytes, b: Bytes): (r: Bytes)
    requires |a| == |b|
    ensures |r| == |a|
    ensures forall i :: 0 <= i < |a| ==> r[i] == XorByte(a[i], b[i])
  {
    seq(|a|, i requires 0 <= i < |a| => XorByte(a[i], b[i]))
  }

  lemma XorBytesCancels(a: Bytes, b: Bytes)
    requires |a| == |b|
    ensures XorBytes(XorBytes(a, b), b) == a
    ensures XorBytes(b, XorBytes(a, b)) == a
  {
    forall i | 0 <= i < |a|
      ensures XorByte(XorByte(a[i], b[i]), b[i]) == a[i]
      ensures XorByte(b[i], XorByte(a[i], b[i])) == a[i]
    {
      XorCancels(a[i], b[i]);
      XorCommutes(b[i], Xor(a[i], b[i]));
    }
  }
}
