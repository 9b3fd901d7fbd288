/**
 Block-cipher modes, padding and hex. AES, MD5 and SHA-256 themselves are parameters: any functions
 of the right output length, where AES decryption undoes encryption for keys of a valid size.
 */
module Cipher {
  import opened ByteStrings

  type Block = b: Bytes | |b| == 16 witness seq(16, _ => 0)

  type Digest = d: Bytes | |d| == 32 witness seq(32, _ => 0)

  datatype Primitives = Primitives(
    encrypt: (Bytes, Block) -> Block,
    decrypt: (Bytes, Block) -> Block,
    md5: Bytes -> Block,
    sha256: Bytes -> Digest)

  predicate ValidKey(key: Bytes) {
    |key| == 16 || |key| == 24 || |key| == 32
  }

  ghost predicate Lawful(p: Primitives) {
    forall k: Bytes, b: Block :: ValidKey(k) ==> p.decrypt(k, p.encrypt(k, b)) == b
  }

  type Suite = p: Primitives | Lawful(p)
    ghost witness Primitives((k, b) => b, (k, b) => b, d => Repeat(16, 0), d => Repeat(32, 0))

  const ZERO_IV: Block := Repeat(16, 0)

  // ----- modes -----

  function EcbEncrypt(p: Suite, key: Bytes, data: Bytes): (r: Bytes)
    requires |data| % 16 == 0
    ensures |r| == |data|
  {
    if data == [] then [] else p.encrypt(key, data[..16]) + EcbEncrypt(p, key, data[16..])
  }

  function EcbDecrypt(p: Suite, key: Bytes, data: Bytes): (r: Bytes)
    requires |data| % 16 == 0
    ensures |r| == |data|
  {
    if data == [] then [] else p.decrypt(key, data[..16]) + EcbDecrypt(p, key, data[16..])
  }

  function CbcEncrypt(p: Suite, key: Bytes, iv: Block, data: Bytes): (r: Bytes)
    requires |data| % 16 == 0
    ensures |r| == |data|
    decreases |data|
  {
    if data == [] then []
    else
      var c: Block := p.encrypt(key, XorBytes(data[..16], iv));
      c + CbcEncrypt(p, key, c, data[16..])
  }

  function CbcDecrypt(p: Suite, key: Bytes, iv: Block, data: Bytes): (r: Bytes)
    requires |data| % 16 == 0
    ensures |r| == |data|
    decreases |data|
  {
    if data == [] then []
    else XorBytes(p.decrypt(key, data[..16]), iv) + CbcDecrypt(p, key, data[..16], data[16..])
  }

  lemma {:induction false} EcbInverts(p: Suite, key: Bytes, data: Bytes)
    requires ValidKey(key) && |data| % 16 == 0
    ensures EcbDecrypt(p, key, EcbEncrypt(p, key, data)) == data
  {
    if data == [] {
    } else {
      var c: Block := p.encrypt(key, data[..16]);
      var rest: Bytes := EcbEncrypt(p, key, data[16..]);
      assert (c + rest)[..16] == c && (c + rest)[16..] == rest;
      EcbInverts(p, key, data[16..]);
      assert data == data[..16] + data[16..];
    }
  }

  lemma {:induction false} CbcInverts(p: Suite, key: Bytes, iv: Block, data: Bytes)
    requires ValidKey(key) && |data| % 16 == 0
    ensures CbcDecrypt(p, key, iv, CbcEncrypt(p, key, iv, data)) == data
    decreases |data|
  {
    if data == [] {
    } else {
      var c: Block := p.encrypt(key, XorBytes(data[..16], iv));
      var rest: Bytes := CbcEncrypt(p, key, c, data[16..]);
      assert (c + rest)[..16] == c && (c + rest)[16..] == rest;
      XorBytesCancels(data[..16], iv);
      CbcInverts(p, key, c, data[16..]);
      assert data == data[..16] + data[16..];
    }
  }

  /** Decrypting under another initialisation vector changes the first block only, by their difference. */
  lemma CbcUnderOtherIv(p: Suite, key: Bytes, iv: Block, other: Block, data: Bytes)
    requires ValidKey(key) && |data| % 16 == 0 && data != []
    ensures CbcDecrypt(p, key, other, CbcEncrypt(p, key, iv, data))
         == XorBytes(XorBytes(data[..16], iv), other) + data[16..]
  {
    var c: Block := p.encrypt(key, XorBytes(data[..16], iv));
    var rest: Bytes := CbcEncrypt(p, key, c, data[16..]);
    assert (c + rest)[..16] == c && (c + rest)[16..] == rest;
    CbcInverts(p, key, c, data[16..]);
  }

  // ----- the library's wrappers, which answer nothing to input they cannot take -----

  function AesCbcEncryptIv(p: Suite, key: Bytes, iv: Bytes, data: Bytes): Bytes {
    if data == [] || |data| % 16 != 0 || |iv| != 16 then [] else CbcEncrypt(p, key, iv, data)
  }

  function AesCbcDecryptIv(p: Suite, key: Bytes, iv: Bytes, data: Bytes): Bytes {
    if data == [] || |data| % 16 != 0 || |iv| != 16 then [] else CbcDecrypt(p, key, iv, data)
  }

  function AesCbcEncrypt(p: Suite, key: Bytes, data: Bytes): Bytes {
    AesCbcEncryptIv(p, key, ZERO_IV, data)
  }

  function AesCbcDecrypt(p: Suite, key: Bytes, data: Bytes): Bytes {
    AesCbcDecryptIv(p, key, ZERO_IV, data)
  }

  // ----- padding -----

  function Pkcs7Pad(data: Bytes): (r: Bytes)
    ensures |r| % 16 == 0 && |data| < |r| <= |data| + 16
  {
    var pad := 16 - |data| % 16;
    data + Repeat(pad, pad)
  }

  /** Only the last byte is looked at; the bytes it says are padding are not compared with it. */
  function Pkcs7Unpad(data: Bytes): Option<Bytes> {
    if data == [] || |data| % 16 != 0 then None
    else
      var pad := data[|data| - 1];
      if pad == 0 || pad > 16 || pad > |data| then None else Some(data[..|data| - pad])
  }

  lemma UnpadUndoesPad(data: Bytes)
    ensures Pkcs7Unpad(Pkcs7Pad(data)) == Some(data)
  {
    var r := Pkcs7Pad(data);
    var pad := 16 - |data| % 16;
    assert r[|r| - 1] == pad && r[..|r| - pad] == data;
  }

  /** Unpadding takes off as many bytes as the last one says, from one to sixteen, and refuses everything else. */
  lemma UnpadWhen(data: Bytes, d: Bytes)
    ensures Pkcs7Unpad(data) == Some(d)
       <==> |data| % 16 == 0 && |d| < |data| <= |d| + 16 && data[..|d|] == d && data[|data| - 1] as int == |data| - |d|
  {
  }

  function EcbEncryptPadded(p: Suite, key: Bytes, data: Bytes): (r: Bytes)
    ensures |r| % 16 == 0 && |data| < |r| <= |data| + 16
  {
    EcbEncrypt(p, key, Pkcs7Pad(data))
  }

  function EcbDecryptUnpadded(p: Suite, key: Bytes, data: Bytes): Option<Bytes> {
    if data == [] || |data| % 16 != 0 then None else Pkcs7Unpad(EcbDecrypt(p, key, data))
  }

  lemma EcbPaddedInverts(p: Suite, key: Bytes, data: Bytes)
    requires ValidKey(key)
    ensures EcbDecryptUnpadded(p, key, EcbEncryptPadded(p, key, data)) == Some(data)
  {
    EcbInverts(p, key, Pkcs7Pad(data));
    UnpadUndoesPad(data);
  }

  method AesEcbEncryptPadded(p: Suite, key: Bytes, data: Bytes) returns (out: Bytes)
    ensures out == EcbEncryptPadded(p, key, data)
  {
    var padded := Pkcs7Pad(data);
    out := [];
    var offset := 0;
    while offset < |padded|
      invariant 0 <= offset <= |padded| && offset % 16 == 0
      invariant out + EcbEncrypt(p, key, padded[offset..]) == EcbEncrypt(p, key, padded)
    {
      EncryptStep(p, key, padded, offset, out);
      out := out + p.encrypt(key, padded[offset..offset + 16]);
      offset := offset + 16;
    }
  }

  lemma EncryptStep(p: Suite, key: Bytes, data: Bytes, offset: nat, out: Bytes)
    requires offset + 16 <= |data| && (|data| - offset) % 16 == 0
    ensures out + EcbEncrypt(p, key, data[offset..])
         == out + p.encrypt(key, data[offset..offset + 16]) + EcbEncrypt(p, key, data[offset + 16..])
  {
    var rest := data[offset..];
    assert rest[..16] == data[offset..offset + 16] && rest[16..] == data[offset + 16..];
  }

  lemma DecryptStep(p: Suite, key: Bytes, data: Bytes, offset: nat, out: Bytes)
    requires offset + 16 <= |data| && (|data| - offset) % 16 == 0
    ensures out + EcbDecrypt(p, key, data[offset..])
         == out + p.decrypt(key, data[offset..offset + 16]) + EcbDecrypt(p, key, data[offset + 16..])
  {
    var rest := data[offset..];
    assert rest[..16] == data[offset..offset + 16] && rest[16..] == data[offset + 16..];
  }

  /** Empty stands for failure, as it does for an empty plaintext. */
  method AesEcbDecryptUnpadded(p: Suite, key: Bytes, data: Bytes) returns (out: Bytes)
    ensures out == match EcbDecryptUnpadded(p, key, data) case None => [] case Some(d) => d
  {
    if data == [] || |data| % 16 != 0 {
      return [];
    }
    out := [];
    var offset := 0;
    while offset < |data|
      invariant 0 <= offset <= |data| && offset % 16 == 0
      invariant out + EcbDecrypt(p, key, data[offset..]) == EcbDecrypt(p, key, data)
    {
      DecryptStep(p, key, data, offset, out);
      out := out + p.decrypt(key, data[offset..offset + 16]);
      offset := offset + 16;
    }
    assert data[offset..] == [];
    assert out == EcbDecrypt(p, key, data);
    var pad := out[|out| - 1];
    if pad == 0 || pad > 16 || pad > |out| {
      return [];
    }
    out := out[..|out| - pad];
  }

  // ----- hex -----

  function Nibble(n: nat): (r: byte)
    requires n < 16
  {
    if n < 10 then 0x30 + n else 0x61 + n - 10
  }

  function ToHex(data: Bytes): (r: Bytes)
    ensures |r| == 2 * |data|
  {
    if data == [] then [] else [Nibble(data[0] / 16), Nibble(data[0] % 16)] + ToHex(data[1..])
  }

  /** None when a pair is not hex; a lone last digit is ignored. */
  function HexPairs(hex: Bytes): Option<Bytes> {
    if |hex| < 2 then Some([])
    else
      var hi, lo := HexDigit(hex[0]), HexDigit(hex[1]);
      if hi < 0 || lo < 0 then None
      else
        match HexPairs(hex[2..])
        case None => None
        case Some(rest) => Some([16 * hi + lo] + rest)
  }

  function FromHex(hex: Bytes): Bytes {
    match HexPairs(hex) case None => [] case Some(d) => d
  }

  lemma {:induction false} HexRoundTrip(data: Bytes)
    ensures HexPairs(ToHex(data)) == Some(data) && FromHex(ToHex(data)) == data
  {
    if data == [] {
    } else {
      var rest := ToHex(data[1..]);
      assert ([Nibble(data[0] / 16), Nibble(data[0] % 16)] + rest)[2..] == rest;
      HexRoundTrip(data[1..]);
      assert data == [data[0]] + data[1..];
    }
  }

  /** Hex is written in lower case, and every digit pair read is the byte it stands for. */
  lemma {:induction false} HexIsLowerCase(data: Bytes)
    ensures forall c :: c in ToHex(data) ==> 0x30 <= c <= 0x39 || 0x61 <= c <= 0x66
  {
    if data == [] {
    } else {
      HexIsLowerCase(data[1..]);
    }
  }

  predicate IsHexPair(hex: Bytes, i: nat) {
    2 * i + 1 < |hex| && HexDigit(hex[2 * i]) >= 0 && HexDigit(hex[2 * i + 1]) >= 0
  }

  /** Text of any length is read pair by pair, a lone last digit ignored; one pair that is none spoils it all. */
  lemma {:induction false} HexPairsRead(hex: Bytes)
    ensures HexPairs(hex).Some? <==> forall i: nat :: i < |hex| / 2 ==> IsHexPair(hex, i)
    ensures HexPairs(hex).Some? ==>
              && |HexPairs(hex).value| == |hex| / 2
              && forall i: nat :: i < |hex| / 2 ==>
                   IsHexPair(hex, i)
                   && HexPairs(hex).value[i] as int == 16 * HexDigit(hex[2 * i]) + HexDigit(hex[2 * i + 1])
    decreases |hex|
  {
    if |hex| < 2 {
    } else {
      var rest := hex[2..];
      HexPairsRead(rest);
      assert |rest| / 2 == |hex| / 2 - 1;
      assert forall i: nat :: i < |rest| / 2 ==> (IsHexPair(rest, i) <==> IsHexPair(hex, i + 1));
      if HexPairs(rest).None? {
        var i: nat :| i < |rest| / 2 && !IsHexPair(rest, i);
        assert !IsHexPair(hex, i + 1);
      } else {
        forall i: nat | 0 < i < |hex| / 2 ensures IsHexPair(hex, i) {
          assert IsHexPair(rest, i - 1);
        }
      }
      assert IsHexPair(hex, 0) <==> HexDigit(hex[0]) >= 0 && HexDigit(hex[1]) >= 0;
    }
  }

  method ToHexText(data: Bytes) returns (out: Bytes)
    ensures out == ToHex(data)
  {
    out := [];
    for i := 0 to |data|
      invariant out + ToHex(data[i..]) == ToHex(data)
    {
      assert data[i..][1..] == data[i + 1..];
      out := out + [Nibble(data[i] / 16), Nibble(data[i] % 16)];
    }
  }

  lemma PairStep(hex: Bytes, i: nat, out: Bytes)
    requires i + 1 < |hex|
    ensures var hi, lo, later := HexDigit(hex[i]), HexDigit(hex[i + 1]), HexPairs(hex[i + 2..]);
            && (HexPairs(hex[i..]).None? <==> hi < 0 || lo < 0 || later.None?)
            && (HexPairs(hex[i..]).Some? ==> out + HexPairs(hex[i..]).value == out + [16 * hi + lo] + later.value)
  {
    assert hex[i..][2..] == hex[i + 2..];
  }

  method FromHexText(hex: Bytes) returns (out: Bytes)
    ensures out == FromHex(hex)
  {
    out := [];
    var i := 0;
    while i + 1 < |hex|
      invariant 0 <= i <= |hex|
      invariant HexPairs(hex).None? <==> HexPairs(hex[i..]).None?
      invariant HexPairs(hex).Some? ==> HexPairs(hex).value == out + HexPairs(hex[i..]).value
    {
      PairStep(hex, i, out);
      var hi, lo := HexDigit(hex[i]), HexDigit(hex[i + 1]);
      if hi < 0 || lo < 0 {
        return [];
      }
      out := out + [16 * hi + lo];
      i := i + 2;
    }
  }
}
