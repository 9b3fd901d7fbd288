/**
 The CRC-8/854 lookup table, sixteen entries to a row, and the proof that each entry is eight steps
 of the bit-serial division it stands for.
 */
module CrcTable {

  /** One bit of reflected division by x^8 + x^5 + x^4 + 1. */
  function Step(v: bv8): bv8 {
    if v & 1 == 1 then (v >> 1) ^ 0x8C else v >> 1
  }

  function Steps(n: nat, v: bv8): bv8
    decreases n
  {
    if n == 0 then v else Steps(n - 1, Step(v))
  }

  function Row0(i: bv8): bv8 {
    match i
    case 0x00 => 0x00 case 0x01 => 0x5E case 0x02 => 0xBC case 0x03 => 0xE2
    case 0x04 => 0x61 case 0x05 => 0x3F case 0x06 => 0xDD case 0x07 => 0x83
    case 0x08 => 0xC2 case 0x09 => 0x9C case 0x0A => 0x7E case 0x0B => 0x20
    case 0x0C => 0xA3 case 0x0D => 0xFD case 0x0E => 0x1F case 0x0F => 0x41
    case _ => 0
  }

  lemma Row0Matches(i: bv8)
    requires i >> 4 == 0x0
    ensures Row0(i) == Steps(8, i)
  {
  }

  function Row1(i: bv8): bv8 {
    match i
    case 0x10 => 0x9D case 0x11 => 0xC3 case 0x12 => 0x21 case 0x13 => 0x7F
    case 0x14 => 0xFC case 0x15 => 0xA2 case 0x16 => 0x40 case 0x17 => 0x1E
    case 0x18 => 0x5F case 0x19 => 0x01 case 0x1A => 0xE3 case 0x1B => 0xBD
    case 0x1C => 0x3E case 0x1D => 0x60 case 0x1E => 0x82 case 0x1F => 0xDC
    case _ => 0
  }

  lemma Row1Matches(i: bv8)
    requires i >> 4 == 0x1
    ensures Row1(i) == Steps(8, i)
  {
  }

  function Row2(i: bv8): bv8 {
    match i
    case 0x20 => 0x23 case 0x21 => 0x7D case 0x22 => 0x9F case 0x23 => 0xC1
    case 0x24 => 0x42 case 0x25 => 0x1C case 0x26 => 0xFE case 0x27 => 0xA0
    case 0x28 => 0xE1 case 0x29 => 0xBF case 0x2A => 0x5D case 0x2B => 0x03
    case 0x2C => 0x80 case 0x2D => 0xDE case 0x2E => 0x3C case 0x2F => 0x62
    case _ => 0
  }

  lemma Row2Matches(i: bv8)
    requires i >> 4 == 0x2
    ensures Row2(i) == Steps(8, i)
  {
  }

  function Row3(i: bv8): bv8 {
    match i
    case 0x30 => 0xBE case 0x31 => 0xE0 case 0x32 => 0x02 case 0x33 => 0x5C
    case 0x34 => 0xDF case 0x35 => 0x81 case 0x36 => 0x63 case 0x37 => 0x3D
    case 0x38 => 0x7C case 0x39 => 0x22 case 0x3A => 0xC0 case 0x3B => 0x9E
    case 0x3C => 0x1D case 0x3D => 0x43 case 0x3E => 0xA1 case 0x3F => 0xFF
    case _ => 0
  }

  lemma Row3Matches(i: bv8)
    requires i >> 4 == 0x3
    ensures Row3(i) == Steps(8, i)
  {
  }

  function Row4(i: bv8): bv8 {
    match i
    case 0x40 => 0x46 case 0x41 => 0x18 case 0x42 => 0xFA case 0x43 => 0xA4
    case 0x44 => 0x27 case 0x45 => 0x79 case 0x46 => 0x9B case 0x47 => 0xC5
    case 0x48 => 0x84 case 0x49 => 0xDA case 0x4A => 0x38 case 0x4B => 0x66
    case 0x4C => 0xE5 case 0x4D => 0xBB case 0x4E => 0x59 case 0x4F => 0x07
    case _ => 0
  }

  lemma Row4Matches(i: bv8)
    requires i >> 4 == 0x4
    ensures Row4(i) == Steps(8, i)
  {
  }

  function Row5(i: bv8): bv8 {
    match i
    case 0x50 => 0xDB case 0x51 => 0x85 case 0x52 => 0x67 case 0x53 => 0x39
    case 0x54 => 0xBA case 0x55 => 0xE4 case 0x56 => 0x06 case 0x57 => 0x58
    case 0x58 => 0x19 case 0x59 => 0x47 case 0x5A => 0xA5 case 0x5B => 0xFB
    case 0x5C => 0x78 case 0x5D => 0x26 case 0x5E => 0xC4 case 0x5F => 0x9A
    case _ => 0
  }

  lemma Row5Matches(i: bv8)
    requires i >> 4 == 0x5
    ensures Row5(i) == Steps(8, i)
  {
  }

  function Row6(i: bv8): bv8 {
    match i
    case 0x60 => 0x65 case 0x61 => 0x3B case 0x62 => 0xD9 case 0x63 => 0x87
    case 0x64 => 0x04 case 0x65 => 0x5A case 0x66 => 0xB8 case 0x67 => 0xE6
    case 0x68 => 0xA7 case 0x69 => 0xF9 case 0x6A => 0x1B case 0x6B => 0x45
    case 0x6C => 0xC6 case 0x6D => 0x98 case 0x6E => 0x7A case 0x6F => 0x24
    case _ => 0
  }

  lemma Row6Matches(i: bv8)
    requires i >> 4 == 0x6
    ensures Row6(i) == Steps(8, i)
  {
  }

  function Row7(i: bv8): bv8 {
    match i
    case 0x70 => 0xF8 case 0x71 => 0xA6 case 0x72 => 0x44 case 0x73 => 0x1A
    case 0x74 => 0x99 case 0x75 => 0xC7 case 0x76 => 0x25 case 0x77 => 0x7B
    case 0x78 => 0x3A case 0x79 => 0x64 case 0x7A => 0x86 case 0x7B => 0xD8
    case 0x7C => 0x5B case 0x7D => 0x05 case 0x7E => 0xE7 case 0x7F => 0xB9
    case _ => 0
  }

  lemma Row7Matches(i: bv8)
    requires i >> 4 == 0x7
    ensures Row7(i) == Steps(8, i)
  {
  }

  function Row8(i: bv8): bv8 {
    match i
    case 0x80 => 0x8C case 0x81 => 0xD2 case 0x82 => 0x30 case 0x83 => 0x6E
    case 0x84 => 0xED case 0x85 => 0xB3 case 0x86 => 0x51 case 0x87 => 0x0F
    case 0x88 => 0x4E case 0x89 => 0x10 case 0x8A => 0xF2 case 0x8B => 0xAC
    case 0x8C => 0x2F case 0x8D => 0x71 case 0x8E => 0x93 case 0x8F => 0xCD
    case _ => 0
  }

  lemma Row8Matches(i: bv8)
    requires i >> 4 == 0x8
    ensures Row8(i) == Steps(8, i)
  {
  }

  function Row9(i: bv8): bv8 {
    match i
    case 0x90 => 0x11 case 0x91 => 0x4F case 0x92 => 0xAD case 0x93 => 0xF3
    case 0x94 => 0x70 case 0x95 => 0x2E case 0x96 => 0xCC case 0x97 => 0x92
    case 0x98 => 0xD3 case 0x99 => 0x8D case 0x9A => 0x6F case 0x9B => 0x31
    case 0x9C => 0xB2 case 0x9D => 0xEC case 0x9E => 0x0E case 0x9F => 0x50
    case _ => 0
  }

  lemma Row9Matches(i: bv8)
    requires i >> 4 == 0x9
    ensures Row9(i) == Steps(8, i)
  {
  }

  function RowA(i: bv8): bv8 {
    match i
    case 0xA0 => 0xAF case 0xA1 => 0xF1 case 0xA2 => 0x13 case 0xA3 => 0x4D
    case 0xA4 => 0xCE case 0xA5 => 0x90 case 0xA6 => 0x72 case 0xA7 => 0x2C
    case 0xA8 => 0x6D case 0xA9 => 0x33 case 0xAA => 0xD1 case 0xAB => 0x8F
    case 0xAC => 0x0C case 0xAD => 0x52 case 0xAE => 0xB0 case 0xAF => 0xEE
    case _ => 0
  }

  lemma RowAMatches(i: bv8)
    requires i >> 4 == 0xA
    ensures RowA(i) == Steps(8, i)
  {
  }

  function RowB(i: bv8): bv8 {
    match i
    case 0xB0 => 0x32 case 0xB1 => 0x6C case 0xB2 => 0x8E case 0xB3 => 0xD0
    case 0xB4 => 0x53 case 0xB5 => 0x0D case 0xB6 => 0xEF case 0xB7 => 0xB1
    case 0xB8 => 0xF0 case 0xB9 => 0xAE case 0xBA => 0x4C case 0xBB => 0x12
    case 0xBC => 0x91 case 0xBD => 0xCF case 0xBE => 0x2D case 0xBF => 0x73
    case _ => 0
  }

  lemma RowBMatches(i: bv8)
    requires i >> 4 == 0xB
    ensures RowB(i) == Steps(8, i)
  {
  }

  function RowC(i: bv8): bv8 {
    match i
    case 0xC0 => 0xCA case 0xC1 => 0x94 case 0xC2 => 0x76 case 0xC3 => 0x28
    case 0xC4 => 0xAB case 0xC5 => 0xF5 case 0xC6 => 0x17 case 0xC7 => 0x49
    case 0xC8 => 0x08 case 0xC9 => 0x56 case 0xCA => 0xB4 case 0xCB => 0xEA
    case 0xCC => 0x69 case 0xCD => 0x37 case 0xCE => 0xD5 case 0xCF => 0x8B
    case _ => 0
  }

  lemma RowCMatches(i: bv8)
    requires i >> 4 == 0xC
    ensures RowC(i) == Steps(8, i)
  {
  }

  function RowD(i: bv8): bv8 {
    match i
    case 0xD0 => 0x57 case 0xD1 => 0x09 case 0xD2 => 0xEB case 0xD3 => 0xB5
    case 0xD4 => 0x36 case 0xD5 => 0x68 case 0xD6 => 0x8A case 0xD7 => 0xD4
    case 0xD8 => 0x95 case 0xD9 => 0xCB case 0xDA => 0x29 case 0xDB => 0x77
    case 0xDC => 0xF4 case 0xDD => 0xAA case 0xDE => 0x48 case 0xDF => 0x16
    case _ => 0
  }

  lemma RowDMatches(i: bv8)
    requires i >> 4 == 0xD
    ensures RowD(i) == Steps(8, i)
  {
  }

  function RowE(i: bv8): bv8 {
    match i
    case 0xE0 => 0xE9 case 0xE1 => 0xB7 case 0xE2 => 0x55 case 0xE3 => 0x0B
    case 0xE4 => 0x88 case 0xE5 => 0xD6 case 0xE6 => 0x34 case 0xE7 => 0x6A
    case 0xE8 => 0x2B case 0xE9 => 0x75 case 0xEA => 0x97 case 0xEB => 0xC9
    case 0xEC => 0x4A case 0xED => 0x14 case 0xEE => 0xF6 case 0xEF => 0xA8
    case _ => 0
  }

  lemma RowEMatches(i: bv8)
    requires i >> 4 == 0xE
    ensures RowE(i) == Steps(8, i)
  {
  }

  function RowF(i: bv8): bv8 {
    match i
    case 0xF0 => 0x74 case 0xF1 => 0x2A case 0xF2 => 0xC8 case 0xF3 => 0x96
    case 0xF4 => 0x15 case 0xF5 => 0x4B case 0xF6 => 0xA9 case 0xF7 => 0xF7
    case 0xF8 => 0xB6 case 0xF9 => 0xE8 case 0xFA => 0x0A case 0xFB => 0x54
    case 0xFC => 0xD7 case 0xFD => 0x89 case 0xFE => 0x6B case 0xFF => 0x35
    case _ => 0
  }

  lemma RowFMatches(i: bv8)
    requires i >> 4 == 0xF
    ensures RowF(i) == Steps(8, i)
  {
  }

  function Lookup(i: bv8): bv8 {
    match i >> 4
    case 0x0 => Row0(i)
    case 0x1 => Row1(i)
    case 0x2 => Row2(i)
    case 0x3 => Row3(i)
    case 0x4 => Row4(i)
    case 0x5 => Row5(i)
    case 0x6 => Row6(i)
    case 0x7 => Row7(i)
    case 0x8 => Row8(i)
    case 0x9 => Row9(i)
    case 0xA => RowA(i)
    case 0xB => RowB(i)
    case 0xC => RowC(i)
    case 0xD => RowD(i)
    case 0xE => RowE(i)
    case _ => RowF(i)
  }

  /** The table is eight steps of the division, for every index. */
  lemma TableIsEightSteps(i: bv8)
    ensures Lookup(i) == Steps(8, i)
  {
    match i >> 4
    case 0x0 => Row0Matches(i);
    case 0x1 => Row1Matches(i);
    case 0x2 => Row2Matches(i);
    case 0x3 => Row3Matches(i);
    case 0x4 => Row4Matches(i);
    case 0x5 => Row5Matches(i);
    case 0x6 => Row6Matches(i);
    case 0x7 => Row7Matches(i);
    case 0x8 => Row8Matches(i);
    case 0x9 => Row9Matches(i);
    case 0xA => RowAMatches(i);
    case 0xB => RowBMatches(i);
    case 0xC => RowCMatches(i);
    case 0xD => RowDMatches(i);
    case 0xE => RowEMatches(i);
    case _ => RowFMatches(i);
  }
}
