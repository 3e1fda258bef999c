/** The table of crc24q (rtkcmn.c) and the proof that each entry is what eight
    shift-and-reduce steps make of its index. */
module Crc24qTable {

  /** Multiplication by x modulo the generator 0x1864CFB, in a 24-bit register. */
  function MulX(c: bv24): bv24
  {
    if c & 0x800000 != 0 then (c << 1) ^ 0x864CFB else c << 1
  }

  function MulX8(c: bv24): bv24
  {
    MulX(MulX(MulX(MulX(MulX(MulX(MulX(MulX(c))))))))
  }

  const ROW0: seq<bv24> := [
    0x000000, 0x864CFB, 0x8AD50D, 0x0C99F6, 0x93E6E1, 0x15AA1A, 0x1933EC, 0x9F7F17,
    0xA18139, 0x27CDC2, 0x2B5434, 0xAD18CF, 0x3267D8, 0xB42B23, 0xB8B2D5, 0x3EFE2E]
  const ROW1: seq<bv24> := [
    0xC54E89, 0x430272, 0x4F9B84, 0xC9D77F, 0x56A868, 0xD0E493, 0xDC7D65, 0x5A319E,
    0x64CFB0, 0xE2834B, 0xEE1ABD, 0x685646, 0xF72951, 0x7165AA, 0x7DFC5C, 0xFBB0A7]
  const ROW2: seq<bv24> := [
    0x0CD1E9, 0x8A9D12, 0x8604E4, 0x00481F, 0x9F3708, 0x197BF3, 0x15E205, 0x93AEFE,
    0xAD50D0, 0x2B1C2B, 0x2785DD, 0xA1C926, 0x3EB631, 0xB8FACA, 0xB4633C, 0x322FC7]
  const ROW3: seq<bv24> := [
    0xC99F60, 0x4FD39B, 0x434A6D, 0xC50696, 0x5A7981, 0xDC357A, 0xD0AC8C, 0x56E077,
    0x681E59, 0xEE52A2, 0xE2CB54, 0x6487AF, 0xFBF8B8, 0x7DB443, 0x712DB5, 0xF7614E]
  const ROW4: seq<bv24> := [
    0x19A3D2, 0x9FEF29, 0x9376DF, 0x153A24, 0x8A4533, 0x0C09C8, 0x00903E, 0x86DCC5,
    0xB822EB, 0x3E6E10, 0x32F7E6, 0xB4BB1D, 0x2BC40A, 0xAD88F1, 0xA11107, 0x275DFC]
  const ROW5: seq<bv24> := [
    0xDCED5B, 0x5AA1A0, 0x563856, 0xD074AD, 0x4F0BBA, 0xC94741, 0xC5DEB7, 0x43924C,
    0x7D6C62, 0xFB2099, 0xF7B96F, 0x71F594, 0xEE8A83, 0x68C678, 0x645F8E, 0xE21375]
  const ROW6: seq<bv24> := [
    0x15723B, 0x933EC0, 0x9FA736, 0x19EBCD, 0x8694DA, 0x00D821, 0x0C41D7, 0x8A0D2C,
    0xB4F302, 0x32BFF9, 0x3E260F, 0xB86AF4, 0x2715E3, 0xA15918, 0xADC0EE, 0x2B8C15]
  const ROW7: seq<bv24> := [
    0xD03CB2, 0x567049, 0x5AE9BF, 0xDCA544, 0x43DA53, 0xC596A8, 0xC90F5E, 0x4F43A5,
    0x71BD8B, 0xF7F170, 0xFB6886, 0x7D247D, 0xE25B6A, 0x641791, 0x688E67, 0xEEC29C]
  const ROW8: seq<bv24> := [
    0x3347A4, 0xB50B5F, 0xB992A9, 0x3FDE52, 0xA0A145, 0x26EDBE, 0x2A7448, 0xAC38B3,
    0x92C69D, 0x148A66, 0x181390, 0x9E5F6B, 0x01207C, 0x876C87, 0x8BF571, 0x0DB98A]
  const ROW9: seq<bv24> := [
    0xF6092D, 0x7045D6, 0x7CDC20, 0xFA90DB, 0x65EFCC, 0xE3A337, 0xEF3AC1, 0x69763A,
    0x578814, 0xD1C4EF, 0xDD5D19, 0x5B11E2, 0xC46EF5, 0x42220E, 0x4EBBF8, 0xC8F703]
  const ROWA: seq<bv24> := [
    0x3F964D, 0xB9DAB6, 0xB54340, 0x330FBB, 0xAC70AC, 0x2A3C57, 0x26A5A1, 0xA0E95A,
    0x9E1774, 0x185B8F, 0x14C279, 0x928E82, 0x0DF195, 0x8BBD6E, 0x872498, 0x016863]
  const ROWB: seq<bv24> := [
    0xFAD8C4, 0x7C943F, 0x700DC9, 0xF64132, 0x693E25, 0xEF72DE, 0xE3EB28, 0x65A7D3,
    0x5B59FD, 0xDD1506, 0xD18CF0, 0x57C00B, 0xC8BF1C, 0x4EF3E7, 0x426A11, 0xC426EA]
  const ROWC: seq<bv24> := [
    0x2AE476, 0xACA88D, 0xA0317B, 0x267D80, 0xB90297, 0x3F4E6C, 0x33D79A, 0xB59B61,
    0x8B654F, 0x0D29B4, 0x01B042, 0x87FCB9, 0x1883AE, 0x9ECF55, 0x9256A3, 0x141A58]
  const ROWD: seq<bv24> := [
    0xEFAAFF, 0x69E604, 0x657FF2, 0xE33309, 0x7C4C1E, 0xFA00E5, 0xF69913, 0x70D5E8,
    0x4E2BC6, 0xC8673D, 0xC4FECB, 0x42B230, 0xDDCD27, 0x5B81DC, 0x57182A, 0xD154D1]
  const ROWE: seq<bv24> := [
    0x26359F, 0xA07964, 0xACE092, 0x2AAC69, 0xB5D37E, 0x339F85, 0x3F0673, 0xB94A88,
    0x87B4A6, 0x01F85D, 0x0D61AB, 0x8B2D50, 0x145247, 0x921EBC, 0x9E874A, 0x18CBB1]
  const ROWF: seq<bv24> := [
    0xE37B16, 0x6537ED, 0x69AE1B, 0xEFE2E0, 0x709DF7, 0xF6D10C, 0xFA48FA, 0x7C0401,
    0x42FA2F, 0xC4B6D4, 0xC82F22, 0x4E63D9, 0xD11CCE, 0x575035, 0x5BC9C3, 0xDD8538]

  /** tbl_CRC24Q */
  const TABLE: seq<bv24> :=
    ROW0 + ROW1 + ROW2 + ROW3 + ROW4 + ROW5 + ROW6 + ROW7
    + ROW8 + ROW9 + ROWA + ROWB + ROWC + ROWD + ROWE + ROWF

  function Entry(i: bv8): bv24
  {
    TABLE[i as nat]
  }

  lemma Row0aCorrect(i: bv8)
    requires i >> 3 == 0
    ensures Entry(i) == MulX8((i as bv24) << 16)
  {
    if i == 0x00 {} else if i == 0x01 {} else if i == 0x02 {} else if i == 0x03 {} else if i == 0x04 {} else if i == 0x05 {} else if i == 0x06 {} else {}
  }

  lemma Row0bCorrect(i: bv8)
    requires i >> 3 == 1
    ensures Entry(i) == MulX8((i as bv24) << 16)
  {
    if i == 0x08 {} else if i == 0x09 {} else if i == 0x0A {} else if i == 0x0B {} else if i == 0x0C {} else if i == 0x0D {} else if i == 0x0E {} else {}
  }

  lemma Row1aCorrect(i: bv8)
    requires i >> 3 == 2
    ensures Entry(i) == MulX8((i as bv24) << 16)
  {
    if i == 0x10 {} else if i == 0x11 {} else if i == 0x12 {} else if i == 0x13 {} else if i == 0x14 {} else if i == 0x15 {} else if i == 0x16 {} else {}
  }

  lemma Row1bCorrect(i: bv8)
    requires i >> 3 == 3
    ensures Entry(i) == MulX8((i as bv24) << 16)
  {
    if i == 0x18 {} else if i == 0x19 {} else if i == 0x1A {} else if i == 0x1B {} else if i == 0x1C {} else if i == 0x1D {} else if i == 0x1E {} else {}
  }

  lemma Row2aCorrect(i: bv8)
    requires i >> 3 == 4
    ensures Entry(i) == MulX8((i as bv24) << 16)
  {
    if i == 0x20 {} else if i == 0x21 {} else if i == 0x22 {} else if i == 0x23 {} else if i == 0x24 {} else if i == 0x25 {} else if i == 0x26 {} else {}
  }

  lemma Row2bCorrect(i: bv8)
    requires i >> 3 == 5
    ensures Entry(i) == MulX8((i as bv24) << 16)
  {
    if i == 0x28 {} else if i == 0x29 {} else if i == 0x2A {} else if i == 0x2B {} else if i == 0x2C {} else if i == 0x2D {} else if i == 0x2E {} else {}
  }

  lemma Row3aCorrect(i: bv8)
    requires i >> 3 == 6
    ensures Entry(i) == MulX8((i as bv24) << 16)
  {
    if i == 0x30 {} else if i == 0x31 {} else if i == 0x32 {} else if i == 0x33 {} else if i == 0x34 {} else if i == 0x35 {} else if i == 0x36 {} else {}
  }

  lemma Row3bCorrect(i: bv8)
    requires i >> 3 == 7
    ensures Entry(i) == MulX8((i as bv24) << 16)
  {
    if i == 0x38 {} else if i == 0x39 {} else if i == 0x3A {} else if i == 0x3B {} else if i == 0x3C {} else if i == 0x3D {} else if i == 0x3E {} else {}
  }

  lemma Row4aCorrect(i: bv8)
    requires i >> 3 == 8
    ensures Entry(i) == MulX8((i as bv24) << 16)
  {
    if i == 0x40 {} else if i == 0x41 {} else if i == 0x42 {} else if i == 0x43 {} else if i == 0x44 {} else if i == 0x45 {} else if i == 0x46 {} else {}
  }

  lemma Row4bCorrect(i: bv8)
    requires i >> 3 == 9
    ensures Entry(i) == MulX8((i as bv24) << 16)
  {
    if i == 0x48 {} else if i == 0x49 {} else if i == 0x4A {} else if i == 0x4B {} else if i == 0x4C {} else if i == 0x4D {} else if i == 0x4E {} else {}
  }

  lemma Row5aCorrect(i: bv8)
    requires i >> 3 == 10
    ensures Entry(i) == MulX8((i as bv24) << 16)
  {
    if i == 0x50 {} else if i == 0x51 {} else if i == 0x52 {} else if i == 0x53 {} else if i == 0x54 {} else if i == 0x55 {} else if i == 0x56 {} else {}
  }

  lemma Row5bCorrect(i: bv8)
    requires i >> 3 == 11
    ensures Entry(i) == MulX8((i as bv24) << 16)
  {
    if i == 0x58 {} else if i == 0x59 {} else if i == 0x5A {} else if i == 0x5B {} else if i == 0x5C {} else if i == 0x5D {} else if i == 0x5E {} else {}
  }

  lemma Row6aCorrect(i: bv8)
    requires i >> 3 == 12
    ensures Entry(i) == MulX8((i as bv24) << 16)
  {
    if i == 0x60 {} else if i == 0x61 {} else if i == 0x62 {} else if i == 0x63 {} else if i == 0x64 {} else if i == 0x65 {} else if i == 0x66 {} else {}
  }

  lemma Row6bCorrect(i: bv8)
    requires i >> 3 == 13
    ensures Entry(i) == MulX8((i as bv24) << 16)
  {
    if i == 0x68 {} else if i == 0x69 {} else if i == 0x6A {} else if i == 0x6B {} else if i == 0x6C {} else if i == 0x6D {} else if i == 0x6E {} else {}
  }

  lemma Row7aCorrect(i: bv8)
    requires i >> 3 == 14
    ensures Entry(i) == MulX8((i as bv24) << 16)
  {
    if i == 0x70 {} else if i == 0x71 {} else if i == 0x72 {} else if i == 0x73 {} else if i == 0x74 {} else if i == 0x75 {} else if i == 0x76 {} else {}
  }

  lemma Row7bCorrect(i: bv8)
    requires i >> 3 == 15
    ensures Entry(i) == MulX8((i as bv24) << 16)
  {
    if i == 0x78 {} else if i == 0x79 {} else if i == 0x7A {} else if i == 0x7B {} else if i == 0x7C {} else if i == 0x7D {} else if i == 0x7E {} else {}
  }

  lemma Row8aCorrect(i: bv8)
    requires i >> 3 == 16
    ensures Entry(i) == MulX8((i as bv24) << 16)
  {
    if i == 0x80 {} else if i == 0x81 {} else if i == 0x82 {} else if i == 0x83 {} else if i == 0x84 {} else if i == 0x85 {} else if i == 0x86 {} else {}
  }

  lemma Row8bCorrect(i: bv8)
    requires i >> 3 == 17
    ensures Entry(i) == MulX8((i as bv24) << 16)
  {
    if i == 0x88 {} else if i == 0x89 {} else if i == 0x8A {} else if i == 0x8B {} else if i == 0x8C {} else if i == 0x8D {} else if i == 0x8E {} else {}
  }

  lemma Row9aCorrect(i: bv8)
    requires i >> 3 == 18
    ensures Entry(i) == MulX8((i as bv24) << 16)
  {
    if i == 0x90 {} else if i == 0x91 {} else if i == 0x92 {} else if i == 0x93 {} else if i == 0x94 {} else if i == 0x95 {} else if i == 0x96 {} else {}
  }

  lemma Row9bCorrect(i: bv8)
    requires i >> 3 == 19
    ensures Entry(i) == MulX8((i as bv24) << 16)
  {
    if i == 0x98 {} else if i == 0x99 {} else if i == 0x9A {} else if i == 0x9B {} else if i == 0x9C {} else if i == 0x9D {} else if i == 0x9E {} else {}
  }

  lemma RowAaCorrect(i: bv8)
    requires i >> 3 == 20
    ensures Entry(i) == MulX8((i as bv24) << 16)
  {
    if i == 0xA0 {} else if i == 0xA1 {} else if i == 0xA2 {} else if i == 0xA3 {} else if i == 0xA4 {} else if i == 0xA5 {} else if i == 0xA6 {} else {}
  }

  lemma RowAbCorrect(i: bv8)
    requires i >> 3 == 21
    ensures Entry(i) == MulX8((i as bv24) << 16)
  {
    if i == 0xA8 {} else if i == 0xA9 {} else if i == 0xAA {} else if i == 0xAB {} else if i == 0xAC {} else if i == 0xAD {} else if i == 0xAE {} else {}
  }

  lemma RowBaCorrect(i: bv8)
    requires i >> 3 == 22
    ensures Entry(i) == MulX8((i as bv24) << 16)
  {
    if i == 0xB0 {} else if i == 0xB1 {} else if i == 0xB2 {} else if i == 0xB3 {} else if i == 0xB4 {} else if i == 0xB5 {} else if i == 0xB6 {} else {}
  }

  lemma RowBbCorrect(i: bv8)
    requires i >> 3 == 23
    ensures Entry(i) == MulX8((i as bv24) << 16)
  {
    if i == 0xB8 {} else if i == 0xB9 {} else if i == 0xBA {} else if i == 0xBB {} else if i == 0xBC {} else if i == 0xBD {} else if i == 0xBE {} else {}
  }

  lemma RowCaCorrect(i: bv8)
    requires i >> 3 == 24
    ensures Entry(i) == MulX8((i as bv24) << 16)
  {
    if i == 0xC0 {} else if i == 0xC1 {} else if i == 0xC2 {} else if i == 0xC3 {} else if i == 0xC4 {} else if i == 0xC5 {} else if i == 0xC6 {} else {}
  }

  lemma RowCbCorrect(i: bv8)
    requires i >> 3 == 25
    ensures Entry(i) == MulX8((i as bv24) << 16)
  {
    if i == 0xC8 {} else if i == 0xC9 {} else if i == 0xCA {} else if i == 0xCB {} else if i == 0xCC {} else if i == 0xCD {} else if i == 0xCE {} else {}
  }

  lemma RowDaCorrect(i: bv8)
    requires i >> 3 == 26
    ensures Entry(i) == MulX8((i as bv24) << 16)
  {
    if i == 0xD0 {} else if i == 0xD1 {} else if i == 0xD2 {} else if i == 0xD3 {} else if i == 0xD4 {} else if i == 0xD5 {} else if i == 0xD6 {} else {}
  }

  lemma RowDbCorrect(i: bv8)
    requires i >> 3 == 27
    ensures Entry(i) == MulX8((i as bv24) << 16)
  {
    if i == 0xD8 {} else if i == 0xD9 {} else if i == 0xDA {} else if i == 0xDB {} else if i == 0xDC {} else if i == 0xDD {} else if i == 0xDE {} else {}
  }

  lemma RowEaCorrect(i: bv8)
    requires i >> 3 == 28
    ensures Entry(i) == MulX8((i as bv24) << 16)
  {
    if i == 0xE0 {} else if i == 0xE1 {} else if i == 0xE2 {} else if i == 0xE3 {} else if i == 0xE4 {} else if i == 0xE5 {} else if i == 0xE6 {} else {}
  }

  lemma RowEbCorrect(i: bv8)
    requires i >> 3 == 29
    ensures Entry(i) == MulX8((i as bv24) << 16)
  {
    if i == 0xE8 {} else if i == 0xE9 {} else if i == 0xEA {} else if i == 0xEB {} else if i == 0xEC {} else if i == 0xED {} else if i == 0xEE {} else {}
  }

  lemma RowFaCorrect(i: bv8)
    requires i >> 3 == 30
    ensures Entry(i) == MulX8((i as bv24) << 16)
  {
    if i == 0xF0 {} else if i == 0xF1 {} else if i == 0xF2 {} else if i == 0xF3 {} else if i == 0xF4 {} else if i == 0xF5 {} else if i == 0xF6 {} else {}
  }

  lemma RowFbCorrect(i: bv8)
    requires i >> 3 == 31
    ensures Entry(i) == MulX8((i as bv24) << 16)
  {
    if i == 0xF8 {} else if i == 0xF9 {} else if i == 0xFA {} else if i == 0xFB {} else if i == 0xFC {} else if i == 0xFD {} else if i == 0xFE {} else {}
  }

  /** Every table entry is its index times x^24 modulo the generator. */
  lemma TableCorrect(i: bv8)
    ensures Entry(i) == MulX8((i as bv24) << 16)
  {
    hide Entry, MulX8;
    var h := i >> 3;
    if h == 0 { Row0aCorrect(i); } else if h == 1 { Row0bCorrect(i); }
    else if h == 2 { Row1aCorrect(i); } else if h == 3 { Row1bCorrect(i); }
    else if h == 4 { Row2aCorrect(i); } else if h == 5 { Row2bCorrect(i); }
    else if h == 6 { Row3aCorrect(i); } else if h == 7 { Row3bCorrect(i); }
    else if h == 8 { Row4aCorrect(i); } else if h == 9 { Row4bCorrect(i); }
    else if h == 10 { Row5aCorrect(i); } else if h == 11 { Row5bCorrect(i); }
    else if h == 12 { Row6aCorrect(i); } else if h == 13 { Row6bCorrect(i); }
    else if h == 14 { Row7aCorrect(i); } else if h == 15 { Row7bCorrect(i); }
    else if h == 16 { Row8aCorrect(i); } else if h == 17 { Row8bCorrect(i); }
    else if h == 18 { Row9aCorrect(i); } else if h == 19 { Row9bCorrect(i); }
    else if h == 20 { RowAaCorrect(i); } else if h == 21 { RowAbCorrect(i); }
    else if h == 22 { RowBaCorrect(i); } else if h == 23 { RowBbCorrect(i); }
    else if h == 24 { RowCaCorrect(i); } else if h == 25 { RowCbCorrect(i); }
    else if h == 26 { RowDaCorrect(i); } else if h == 27 { RowDbCorrect(i); }
    else if h == 28 { RowEaCorrect(i); } else if h == 29 { RowEbCorrect(i); }
    else if h == 30 { RowFaCorrect(i); } else if h == 31 { RowFbCorrect(i); }
  }
}
