/**
 Layer 1, the 0xAA command frame: a ten-byte header, a payload that ends in a message id and its
 CRC, and a checksum byte.
 */
module Frame {
  import opened ByteStrings
  import opened Checksum

  const DEVICE_TYPE_AC: byte := 0xAC
  const DEVICE_TYPE_CC: byte := 0xCC
  const FRAME_TYPE_CONTROL: byte := 0x02
  const FRAME_TYPE_QUERY: byte := 0x03

  const TWO_TO_THE_32: nat := 0x1_0000_0000

  function Sum(data: Bytes): nat {
    if data == [] then 0 else data[0] + Sum(data[1..])
  }

  /** Two's complement of a 32-bit sum, cut to a byte. */
  function Complement(sum: nat): byte {
    ((TWO_TO_THE_32 - sum % TWO_TO_THE_32) % TWO_TO_THE_32) % 256
  }

  lemma ComplementCancels(sum: nat)
    ensures (sum + Complement(sum)) % 256 == 0
  {
    var high, low := sum / TWO_TO_THE_32, sum % TWO_TO_THE_32;
    if low == 0 {
      IsMultiple(0x100_0000 * high);
    } else {
      IsMultiple(0x100_0000 * high + 0x100_0000 - (TWO_TO_THE_32 - low) / 256);
    }
  }

  lemma IsMultiple(n: int)
    ensures (256 * n) % 256 == 0
  {
  }

  lemma SumWraps(sum: nat, b: byte)
    ensures (sum % TWO_TO_THE_32 + b) % TWO_TO_THE_32 == (sum + b) % TWO_TO_THE_32
  {
    var high, low := sum / TWO_TO_THE_32, sum % TWO_TO_THE_32;
    assert sum + b == TWO_TO_THE_32 * high + (low + b);
  }

  lemma {:induction false} SumAppends(data: Bytes, b: byte)
    ensures Sum(data + [b]) == Sum(data) + b
  {
    if data != [] {
      assert (data + [b])[1..] == data[1..] + [b];
      SumAppends(data[1..], b);
    } else {
      assert data + [b] == [b];
    }
  }

  method FrameChecksum(data: Bytes, begin: nat, end: nat) returns (checksum: byte)
    requires begin <= end <= |data|
    ensures checksum == Complement(Sum(data[begin..end]))
  {
    var sum := 0;
    var i := begin;
    while i < end
      invariant begin <= i <= end
      invariant sum == Sum(data[begin..i]) % TWO_TO_THE_32
    {
      SumAppends(data[begin..i], data[i]);
      SumWraps(Sum(data[begin..i]), data[i]);
      assert data[begin..i + 1] == data[begin..i] + [data[i]];
      sum := (sum + data[i]) % TWO_TO_THE_32;
      i := i + 1;
    }
    checksum := ((TWO_TO_THE_32 - sum) % TWO_TO_THE_32) % 256;
  }

  function Header(device: byte, frameType: byte, payloadSize: nat): (r: Bytes)
    ensures |r| == 10
  {
    [0xAA, (payloadSize + 10) % 256, device, 0, 0, 0, 0, 0, 0, frameType]
  }

  function WrapFrame(device: byte, frameType: byte, payload: Bytes): (r: Bytes)
    ensures |r| == |payload| + 11
  {
    var frame := Header(device, frameType, |payload|) + payload;
    frame + [Complement(Sum(frame[1..]))]
  }

  /** Appends the message id and the CRC that every command carries, then frames it. */
  function WrapCommand(device: byte, frameType: byte, payload: Bytes, messageId: byte): (r: Bytes)
    ensures |r| == |payload| + 13
  {
    var numbered := payload + [messageId];
    WrapFrame(device, frameType, numbered + [Crc(numbered)])
  }

  method BuildCommand(device: byte, frameType: byte, payload: Bytes, messageId: byte) returns (frame: Bytes)
    ensures frame == WrapCommand(device, frameType, payload, messageId)
  {
    var body := payload + [messageId];
    var crc := Crc8(body);
    body := body + [crc];
    frame := Repeat(10, 0);
    frame := frame[0 := 0xAA][1 := (|body| + 10) % 256][2 := device][9 := frameType];
    assert frame == Header(device, frameType, |body|);
    frame := frame + body;
    var checksum := FrameChecksum(frame, 1, |frame|);
    assert frame[1..|frame|] == frame[1..];
    frame := frame + [checksum];
  }

  // ----- what a receiver relies on -----

  /** The start byte is there and the length byte says where the frame ends. */
  predicate SelfDelimiting(frame: Bytes) {
    |frame| >= 2 && frame[0] == 0xAA && |frame| == 1 + frame[1] as int
  }

  /** The part of a frame between header and checksum: payload, message id and CRC. */
  function Body(frame: Bytes): Bytes
    requires |frame| >= 11
  {
    frame[10..|frame| - 1]
  }

  /** Every frame built sums to zero from its second byte on. */
  lemma FrameSumsToZero(device: byte, frameType: byte, payload: Bytes)
    ensures Sum(WrapFrame(device, frameType, payload)[1..]) % 256 == 0
  {
    var frame := Header(device, frameType, |payload|) + payload;
    SumAppends(frame[1..], Complement(Sum(frame[1..])));
    assert (frame + [Complement(Sum(frame[1..]))])[1..] == frame[1..] + [Complement(Sum(frame[1..]))];
    ComplementCancels(Sum(frame[1..]));
  }

  /** It delimits itself exactly when its length fits the length byte. */
  lemma FrameDelimitsItself(device: byte, frameType: byte, payload: Bytes)
    ensures SelfDelimiting(WrapFrame(device, frameType, payload)) <==> |payload| <= 245
  {
  }

  /** The body of a command checks to CRC zero. */
  lemma CommandHasZeroResidue(device: byte, frameType: byte, payload: Bytes, messageId: byte)
    ensures var frame := WrapCommand(device, frameType, payload, messageId);
            Crc(Body(frame)) == 0 && Body(frame)[..|payload|] == payload
  {
    var numbered := payload + [messageId];
    var frame := WrapCommand(device, frameType, payload, messageId);
    assert Body(frame) == numbered + [Crc(numbered)];
    ResidueIsZero(numbered, Crc(numbered));
  }

  /** The body of a command whose payload is a kind, a count and entries: behind those come id and CRC. */
  lemma CountedBody(device: byte, frameType: byte, kind: byte, count: byte, entries: Bytes, messageId: byte)
    returns (rest: Bytes)
    ensures var frame := WrapCommand(device, frameType, [kind, count] + entries, messageId);
            && |frame| >= 13 && frame[0] == 0xAA && |Body(frame)| >= 2
            && Body(frame)[0] == kind && Body(frame)[1] == count && Body(frame)[2..] == entries + rest
    ensures |rest| == 2 && rest[0] == messageId
  {
    var numbered := [kind, count] + entries + [messageId];
    rest := [messageId, Crc(numbered)];
    var frame := WrapCommand(device, frameType, [kind, count] + entries, messageId);
    assert Body(frame) == [kind, count] + (entries + rest);
  }
}
