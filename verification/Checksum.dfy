/**
 The checksum over every command's payload. `Crc8` is the implementation's table loop; `Crc` is the
 bit-serial register it unrolls; `Divide` is schoolbook division of polynomials over GF(2).
 */
module Checksum {
  import opened ByteStrings
  import opened CrcTable

  /** Coefficients of x^8 + x^5 + x^4 + 1 below the leading one, x^7 first. */
  const GENERATOR: seq<bool> := [false, false, true, true, false, false, false, true]

  /** The eight cells of the checksum register, in the order their bits are sent. */
  type Register = r: seq<bool> | |r| == 8 witness GENERATOR

  const ZERO: Register := [false, false, false, false, false, false, false, false]

  function XorBits(a: seq<bool>, b: seq<bool>): (r: seq<bool>)
    requires |a| == |b|
    ensures |r| == |a|
    ensures forall i :: 0 <= i < |a| ==> r[i] == (a[i] != b[i])
  {
    seq(|a|, i requires 0 <= i < |a| => a[i] != b[i])
  }

  /** Bit `k` of a byte. */
  predicate CellAt(k: nat, v: bv8)
    decreases k
  {
    if k == 0 then v & 1 == 1 else CellAt(k - 1, v >> 1)
  }

  function Cells(v: bv8): (r: Register)
    ensures forall k :: 0 <= k < 8 ==> r[k] == CellAt(k, v)
  {
    seq(8, k requires 0 <= k < 8 => CellAt(k, v))
  }

  /** The bits of a string in the order they are sent: byte by byte, least significant bit first. */
  function Bits(data: Bytes): (r: seq<bool>)
    ensures |r| == 8 * |data|
  {
    if data == [] then [] else Cells(data[0] as bv8) + Bits(data[1..])
  }

  /** One bit of reflected division by the generator. */
  function Shift(r: Register, b: bool): Register {
    var next := r[1..] + [false];
    if r[0] != b then XorBits(next, GENERATOR) else next
  }

  function Feed(r: Register, bits: seq<bool>): Register
    decreases |bits|
  {
    if bits == [] then r else Feed(Shift(r, bits[0]), bits[1..])
  }

  function Bit(b: bool): bv8 {
    if b then 1 else 0
  }

  function Pack(r: Register): bv8 {
    Bit(r[0]) | (Bit(r[1]) << 1) | (Bit(r[2]) << 2) | (Bit(r[3]) << 3) |
    (Bit(r[4]) << 4) | (Bit(r[5]) << 5) | (Bit(r[6]) << 6) | (Bit(r[7]) << 7)
  }

  function Crc(data: Bytes): byte {
    Pack(Feed(ZERO, Bits(data))) as int
  }

  // ----- the table loop -----

  method Crc8(data: Bytes) returns (value: byte)
    ensures value == Crc(data)
  {
    var register: bv8 := 0;
    var i := 0;
    assert Cells(register) == ZERO;
    while i < |data|
      invariant 0 <= i <= |data|
      invariant Cells(register) == Feed(ZERO, Bits(data[..i]))
    {
      NextRegister(register, data, i);
      register := Lookup(register ^ (data[i] as bv8));
      i := i + 1;
    }
    assert data[..i] == data;
    PackCells(register);
    value := register as int;
  }

  lemma NextRegister(register: bv8, data: Bytes, i: nat)
    requires i < |data| && Cells(register) == Feed(ZERO, Bits(data[..i]))
    ensures Cells(Lookup(register ^ (data[i] as bv8))) == Feed(ZERO, Bits(data[..i + 1]))
  {
    LookupFeeds(register, data[i] as bv8);
    FeedExtends(data, i);
  }

  lemma FeedExtends(data: Bytes, i: nat)
    requires i < |data|
    ensures Feed(ZERO, Bits(data[..i + 1])) == Feed(Feed(ZERO, Bits(data[..i])), Cells(data[i] as bv8))
  {
    FeedAppends(data[..i], data[i]);
    assert data[..i + 1] == data[..i] + [data[i]];
  }

  lemma FeedAppends(data: Bytes, b: byte)
    ensures Feed(ZERO, Bits(data + [b])) == Feed(Feed(ZERO, Bits(data)), Cells(b as bv8))
  {
    BitsAppend(data, [b]);
    assert Bits([b]) == Cells(b as bv8);
    FeedAppend(ZERO, Bits(data), Cells(b as bv8));
  }

  lemma {:induction false} FeedAppend(r: Register, a: seq<bool>, b: seq<bool>)
    ensures Feed(r, a + b) == Feed(Feed(r, a), b)
    decreases |a|
  {
    if a == [] {
      assert a + b == b;
    } else {
      assert (a + b)[0] == a[0] && (a + b)[1..] == a[1..] + b;
      FeedAppend(Shift(r, a[0]), a[1..], b);
    }
  }

  lemma {:induction false} BitsAppend(a: Bytes, b: Bytes)
    ensures Bits(a + b) == Bits(a) + Bits(b)
  {
    if a == [] {
      assert a + b == b;
    } else {
      assert (a + b)[0] == a[0] && (a + b)[1..] == a[1..] + b;
      BitsAppend(a[1..], b);
    }
  }

  // ----- registers and machine bytes -----

  lemma {:induction false} CellAtSum(k: nat, v: bv8, u: bv8)
    ensures CellAt(k, v ^ u) == (CellAt(k, v) != CellAt(k, u))
    decreases k
  {
    if k == 0 {
    } else {
      assert (v ^ u) >> 1 == (v >> 1) ^ (u >> 1);
      CellAtSum(k - 1, v >> 1, u >> 1);
    }
  }

  lemma CellsSum(v: bv8, u: bv8)
    ensures Cells(v ^ u) == XorBits(Cells(v), Cells(u))
  {
    forall k | 0 <= k < 8
      ensures CellAt(k, v ^ u) == (CellAt(k, v) != CellAt(k, u))
    {
      CellAtSum(k, v, u);
    }
  }

  lemma CellsHalve(v: bv8)
    ensures Cells(v >> 1) == Cells(v)[1..] + [false]
  {
    assert !CellAt(7, v >> 1);
    forall k | 0 <= k < 8
      ensures CellAt(k, v >> 1) == (Cells(v)[1..] + [false])[k]
    {
      assert k < 7 ==> CellAt(k, v >> 1) == CellAt(k + 1, v);
    }
  }

  lemma CellsGenerator()
    ensures Cells(0x8C) == GENERATOR
  {
    assert !CellAt(0, 0x8C) && !CellAt(1, 0x8C) && CellAt(2, 0x8C) && CellAt(3, 0x8C);
    assert !CellAt(4, 0x8C) && !CellAt(5, 0x8C) && !CellAt(6, 0x8C) && CellAt(7, 0x8C);
  }

  lemma CellsStep(v: bv8)
    ensures Cells(Step(v)) == Shift(Cells(v), false)
  {
    CellsHalve(v);
    CellsGenerator();
    CellsSum(v >> 1, 0x8C);
    assert CellAt(0, v) == (v & 1 == 1);
  }

  lemma PackCells(v: bv8)
    ensures Pack(Cells(v)) == v
  {
  }

  lemma CellsPack(r: Register)
    ensures Cells(Pack(r)) == r
  {
  }

  // ----- eight bits at a time -----

  function Idle(n: nat, r: Register): Register
    decreases n
  {
    if n == 0 then r else Idle(n - 1, Shift(r, false))
  }

  lemma {:induction false} CellsSteps(n: nat, v: bv8)
    ensures Cells(Steps(n, v)) == Idle(n, Cells(v))
    decreases n
  {
    if n == 0 {
    } else {
      CellsStep(v);
      CellsSteps(n - 1, Step(v));
    }
  }

  /** The `n` bits still to come, lined up with the register they will meet. */
  function Pending(w: seq<bool>): (r: Register)
    requires |w| <= 8
    ensures forall k :: 0 <= k < 8 ==> r[k] == (k < |w| && w[k])
  {
    seq(8, k requires 0 <= k < 8 => k < |w| && w[k])
  }

  lemma ShiftAbsorbs(r: Register, w: seq<bool>)
    requires 0 < |w| <= 8
    ensures Shift(XorBits(r, Pending(w)), false) == XorBits(Shift(r, w[0]), Pending(w[1..]))
  {
  }

  /** Shifting in bits one by one is one exclusive or followed by as many idle steps. */
  lemma {:induction false} FeedPending(r: Register, w: seq<bool>)
    requires |w| <= 8
    ensures Feed(r, w) == Idle(|w|, XorBits(r, Pending(w)))
    decreases |w|
  {
    if w == [] {
      assert XorBits(r, Pending(w)) == r;
    } else {
      ShiftAbsorbs(r, w);
      FeedPending(Shift(r, w[0]), w[1..]);
    }
  }

  lemma LookupFeeds(v: bv8, u: bv8)
    ensures Cells(Lookup(v ^ u)) == Feed(Cells(v), Cells(u))
  {
    TableIsEightSteps(v ^ u);
    CellsSteps(8, v ^ u);
    CellsSum(v, u);
    FeedPending(Cells(v), Cells(u));
    assert Pending(Cells(u)) == Cells(u);
  }

  // ----- the checksum is linear -----

  lemma ShiftAdds(r: Register, q: Register, a: bool, b: bool)
    ensures Shift(XorBits(r, q), a != b) == XorBits(Shift(r, a), Shift(q, b))
  {
  }

  /** The remainder of a difference is the difference of the remainders. */
  lemma {:induction false} FeedIsLinear(r: Register, q: Register, a: seq<bool>, b: seq<bool>)
    requires |a| == |b|
    ensures Feed(XorBits(r, q), XorBits(a, b)) == XorBits(Feed(r, a), Feed(q, b))
    decreases |a|
  {
    if a == [] {
    } else {
      assert XorBits(a, b)[1..] == XorBits(a[1..], b[1..]);
      ShiftAdds(r, q, a[0], b[0]);
      FeedIsLinear(Shift(r, a[0]), Shift(q, b[0]), a[1..], b[1..]);
    }
  }

  // ----- the checksum is the remainder of polynomial division -----

  /** Long division by the generator: cancel the leading coefficient, drop it, repeat. */
  function Divide(p: seq<bool>): (r: Register)
    requires |p| >= 8
    decreases |p|
  {
    if |p| == 8 then p
    else if p[0] then Divide(XorBits(p[1..9], GENERATOR) + p[9..])
    else Divide(p[1..])
  }

  /** The polynomial still to be divided when the register holds `r` and `z` is to come. */
  function Dividend(r: Register, z: seq<bool>): seq<bool>
    requires |z| >= 8
  {
    XorBits(r, z[..8]) + z[8..]
  }

  lemma XorSwaps(a: Register, b: Register)
    ensures XorBits(XorBits(a, b), GENERATOR) == XorBits(XorBits(a, GENERATOR), b)
  {
  }

  lemma DivideShifts(r: Register, z: seq<bool>)
    requires |z| >= 9
    ensures Divide(Dividend(r, z)) == Divide(Dividend(Shift(r, z[0]), z[1..]))
  {
    var p := Dividend(r, z);
    var next: Register := r[1..] + [false];
    assert p[0] == (r[0] != z[0]);
    assert p[9..] == z[9..] && z[1..][8..] == z[9..];
    assert p[1..9] == XorBits(next, z[1..9]) && z[1..][..8] == z[1..9];
    if p[0] {
      XorSwaps(next, z[1..9]);
    } else {
      assert p[1..] == p[1..9] + p[9..];
    }
  }

  lemma {:induction false} FeedDivides(r: Register, bits: seq<bool>)
    ensures Divide(Dividend(r, bits + ZERO)) == Feed(r, bits)
    decreases |bits|
  {
    if bits == [] {
      assert Dividend(r, bits + ZERO) == r;
    } else {
      DivideShifts(r, bits + ZERO);
      assert (bits + ZERO)[1..] == bits[1..] + ZERO;
      FeedDivides(Shift(r, bits[0]), bits[1..]);
    }
  }

  /** The checksum is the remainder of the message, times x^8, by the generator. */
  lemma CrcIsRemainder(data: Bytes)
    ensures Cells(Crc(data) as bv8) == Divide(Bits(data) + ZERO)
  {
    FeedDivides(ZERO, Bits(data));
    assert Dividend(ZERO, Bits(data) + ZERO) == Bits(data) + ZERO;
    CrcCells(data);
  }

  // ----- what it detects -----

  lemma CrcCells(data: Bytes)
    ensures Cells(Crc(data) as bv8) == Feed(ZERO, Bits(data))
  {
    CellsPack(Feed(ZERO, Bits(data)));
  }

  lemma IdleStep(r: Register)
    ensures Shift(r, false) == ZERO <==> r == ZERO
  {
    if Shift(r, false) == ZERO {
      assert Shift(r, false)[7] == r[0];
      assert forall k :: 0 <= k < 7 ==> r[1..][k] == Shift(r, false)[k];
      assert forall k :: 1 <= k < 8 ==> r[k] == r[1..][k - 1];
      assert r == ZERO;
    }
  }

  lemma {:induction false} IdleIsQuiet(n: nat, r: Register)
    ensures Idle(n, r) == ZERO <==> r == ZERO
    decreases n
  {
    if n == 0 {
    } else {
      IdleStep(r);
      IdleIsQuiet(n - 1, Shift(r, false));
    }
  }

  predicate Quiet(bits: seq<bool>) {
    forall i :: 0 <= i < |bits| ==> !bits[i]
  }

  lemma {:induction false} QuietBits(r: Register, bits: seq<bool>)
    requires Quiet(bits)
    ensures Feed(r, bits) == ZERO <==> r == ZERO
    decreases |bits|
  {
    if bits == [] {
    } else {
      IdleStep(r);
      QuietBits(Shift(r, false), bits[1..]);
    }
  }

  lemma SumIsZero(r: Register, q: Register)
    ensures XorBits(r, q) == ZERO <==> r == q
  {
    if XorBits(r, q) == ZERO {
      assert forall k :: 0 <= k < 8 ==> (r[k] != q[k]) == ZERO[k];
    }
  }

  /** After one more byte the register is zero exactly when that byte is what it held. */
  lemma FeedCancels(r: Register, w: Register)
    ensures Feed(r, w) == ZERO <==> r == w
  {
    FeedPending(r, w);
    assert Pending(w) == w;
    IdleIsQuiet(8, XorBits(r, w));
    SumIsZero(r, w);
  }

  lemma SameCells(b: byte, c: byte)
    ensures Cells(b as bv8) == Cells(c as bv8) <==> b == c
  {
    if Cells(b as bv8) == Cells(c as bv8) {
      PackCells(b as bv8);
      PackCells(c as bv8);
      MachineByte(b);
      MachineByte(c);
    }
  }

  lemma MachineByte(b: int)
    requires 0 <= b < 256
    ensures (b as bv8) as int == b
  {
    assert b % 256 == b;
  }

  lemma SameChecksum(a: Bytes, b: Bytes)
    ensures Crc(a) == Crc(b) <==> Feed(ZERO, Bits(a)) == Feed(ZERO, Bits(b))
  {
    CrcCells(a);
    CrcCells(b);
  }

  lemma ZeroChecksum(a: Bytes)
    ensures Crc(a) == 0 <==> Feed(ZERO, Bits(a)) == ZERO
  {
    SameChecksum(a, []);
    assert Crc([]) == 0;
  }

  /** A receiver that checksums payload and checksum together sees zero exactly for the right one. */
  lemma ResidueIsZero(data: Bytes, c: byte)
    ensures Crc(data + [c]) == 0 <==> c == Crc(data)
  {
    ZeroChecksum(data + [c]);
    FeedAppends(data, c);
    FeedCancels(Feed(ZERO, Bits(data)), Cells(c as bv8));
    CrcCells(data);
    SameCells(c, Crc(data));
  }

  /** The cells of `m` are those of `a` and `b` combined. */
  predicate Combines(m: bv8, a: bv8, b: bv8) {
    Cells(m) == XorBits(Cells(a), Cells(b))
  }

  lemma CombinedIsXor(m: bv8, a: bv8, b: bv8)
    ensures Combines(m, a, b) <==> m == a ^ b
  {
    CellsSum(a, b);
    PackCells(m);
    PackCells(a ^ b);
  }

  lemma XorBitsAppend(a: seq<bool>, b: seq<bool>, c: seq<bool>, d: seq<bool>)
    requires |a| == |b| && |c| == |d|
    ensures XorBits(a + c, b + d) == XorBits(a, b) + XorBits(c, d)
  {
  }

  /** The same of bytes. */
  predicate CombinesBytes(m: byte, a: byte, b: byte) {
    Combines(m as bv8, a as bv8, b as bv8)
  }

  lemma CombinedCells(m: byte, a: byte, b: byte)
    requires CombinesBytes(m, a, b)
    ensures ByteCells(m) == XorBits(ByteCells(a), ByteCells(b))
  {
  }

  function ByteCells(b: byte): (r: seq<bool>)
    ensures |r| == 8
  {
    Cells(b as bv8)
  }

  lemma BitsSplit(data: Bytes)
    requires data != []
    ensures Bits(data) == ByteCells(data[0]) + Bits(data[1..])
  {
  }

  lemma {:induction false} CombinedBits(m: Bytes, a: Bytes, b: Bytes)
    requires |m| == |a| == |b| && forall i :: 0 <= i < |a| ==> CombinesBytes(m[i], a[i], b[i])
    ensures Bits(m) == XorBits(Bits(a), Bits(b))
  {
    if m == [] {
    } else {
      BitsSplit(m);
      BitsSplit(a);
      BitsSplit(b);
      CombinedCells(m[0], a[0], b[0]);
      CombinedBits(m[1..], a[1..], b[1..]);
      XorBitsAppend(ByteCells(a[0]), ByteCells(b[0]), Bits(a[1..]), Bits(b[1..]));
    }
  }

  lemma CombinedFeeds(m: Bytes, a: Bytes, b: Bytes)
    requires |a| == |b| && Bits(m) == XorBits(Bits(a), Bits(b))
    ensures Feed(ZERO, Bits(m)) == XorBits(Feed(ZERO, Bits(a)), Feed(ZERO, Bits(b)))
  {
    FeedIsLinear(ZERO, ZERO, Bits(a), Bits(b));
    SumIsZero(ZERO, ZERO);
  }

  /** Exclusive or of two bytes, as the machine computes it. */
  predicate IsXor(m: byte, a: byte, b: byte) {
    m as bv8 == a as bv8 ^ b as bv8
  }

  lemma BytesCombine(m: byte, a: byte, b: byte)
    requires IsXor(m, a, b)
    ensures CombinesBytes(m, a, b)
  {
    CombinedIsXor(m as bv8, a as bv8, b as bv8);
  }

  lemma CombinedBytes(m: byte, a: byte, b: byte)
    requires CombinesBytes(m, a, b)
    ensures IsXor(m, a, b)
  {
    CombinedIsXor(m as bv8, a as bv8, b as bv8);
  }

  /** The checksum is linear: that of the exclusive or of two messages is the exclusive or of their checksums. */
  lemma CrcIsLinear(m: Bytes, a: Bytes, b: Bytes)
    requires |m| == |a| == |b| && forall i :: 0 <= i < |a| ==> IsXor(m[i], a[i], b[i])
    ensures IsXor(Crc(m), Crc(a), Crc(b))
  {
    forall i | 0 <= i < |a|
      ensures CombinesBytes(m[i], a[i], b[i])
    {
      assert IsXor(m[i], a[i], b[i]);
      BytesCombine(m[i], a[i], b[i]);
    }
    CombinedBits(m, a, b);
    CombinedFeeds(m, a, b);
    XorOfChecksums(m, a, b);
  }

  lemma XorOfChecksums(m: Bytes, a: Bytes, b: Bytes)
    requires Feed(ZERO, Bits(m)) == XorBits(Feed(ZERO, Bits(a)), Feed(ZERO, Bits(b)))
    ensures IsXor(Crc(m), Crc(a), Crc(b))
  {
    CrcCells(m);
    CrcCells(a);
    CrcCells(b);
    CombinedBytes(Crc(m), Crc(a), Crc(b));
  }

  lemma {:induction false} SameBits(a: Bytes, b: Bytes)
    requires |a| == |b| && Bits(a) == Bits(b)
    ensures a == b
  {
    if a == [] {
    } else {
      assert Cells(a[0] as bv8) == Bits(a)[..8] == Bits(b)[..8] == Cells(b[0] as bv8);
      SameCells(a[0], b[0]);
      assert Bits(a[1..]) == Bits(a)[8..] == Bits(b)[8..] == Bits(b[1..]);
      SameBits(a[1..], b[1..]);
      assert a == [a[0]] + a[1..] && b == [b[0]] + b[1..];
    }
  }

  lemma LoudByte(before: seq<bool>, burst: Register, after: seq<bool>)
    requires Quiet(before) && burst != ZERO && Quiet(after)
    ensures Feed(ZERO, before + (burst + after)) != ZERO
  {
    FeedAppend(ZERO, before, burst + after);
    QuietBits(ZERO, before);
    FeedAppend(ZERO, burst, after);
    FeedCancels(ZERO, burst);
    QuietBits(Feed(ZERO, burst), after);
  }

  lemma InThree(e: seq<bool>, k: nat)
    requires k + 8 <= |e|
    ensures e == e[..k] + (e[k..k + 8] + e[k + 8..])
  {
  }

  lemma BurstLeavesTrace(e: seq<bool>, k: nat, i: nat)
    requires k <= i < k + 8 <= |e| && e[i]
    requires forall j :: 0 <= j < |e| && e[j] ==> k <= j < k + 8
    ensures Feed(ZERO, e) != ZERO
  {
    var burst := e[k..k + 8];
    assert burst[i - k] && !ZERO[i - k];
    LoudByte(e[..k], burst, e[k + 8..]);
    InThree(e, k);
  }

  lemma DifferenceShows(sent: Bytes, got: Bytes) returns (i: nat)
    requires |sent| == |got| && sent != got
    ensures i < 8 * |sent| && Bits(sent)[i] != Bits(got)[i]
  {
    if Bits(sent) == Bits(got) {
      SameBits(sent, got);
    }
    i :| i < 8 * |sent| && Bits(sent)[i] != Bits(got)[i];
  }

  /** Any change confined to eight consecutive bits, wherever they fall, changes the checksum. */
  lemma BurstDetected(sent: Bytes, got: Bytes, k: nat)
    requires |sent| == |got| && sent != got
    requires k + 8 <= 8 * |sent|
    requires forall i :: 0 <= i < 8 * |sent| && Bits(sent)[i] != Bits(got)[i] ==> k <= i < k + 8
    ensures Crc(sent) != Crc(got)
  {
    var i := DifferenceShows(sent, got);
    BurstLeavesTrace(XorBits(Bits(sent), Bits(got)), k, i);
    FeedIsLinear(ZERO, ZERO, Bits(sent), Bits(got));
    SumIsZero(ZERO, ZERO);
    SumIsZero(Feed(ZERO, Bits(sent)), Feed(ZERO, Bits(got)));
    SameChecksum(sent, got);
  }
}
