/** The tables `auchCRCHi` and `auchCRCLo` of include/mothbus/adu/crc.h. */
module CrcTables {
  import opened CrcBits

  /** One of sixteen values. */
  function Pick(k: bv8, v0: bv8, v1: bv8, v2: bv8, v3: bv8, v4: bv8, v5: bv8, v6: bv8, v7: bv8,
                v8: bv8, v9: bv8, vA: bv8, vB: bv8, vC: bv8, vD: bv8, vE: bv8, vF: bv8): bv8 {
    if k < 8 then
      if k < 4 then (if k < 2 then (if k < 1 then v0 else v1) else (if k < 3 then v2 else v3))
      else (if k < 6 then (if k < 5 then v4 else v5) else (if k < 7 then v6 else v7))
    else
      if k < 12 then (if k < 10 then (if k < 9 then v8 else v9) else (if k < 11 then vA else vB))
      else (if k < 14 then (if k < 13 then vC else vD) else (if k < 15 then vE else vF))
  }

  /** `auchCRCHi[i]`, in sixteen rows of sixteen entries. */
  function AuchCrcHi(i: bv8): bv8 {
    if i < 0x80 then
      if i < 0x40 then
        if i < 0x20 then
          if i < 0x10 then
            Pick(i & 0xF, 0x00, 0xC1, 0x81, 0x40, 0x01, 0xC0, 0x80, 0x41, 0x01, 0xC0, 0x80, 0x41, 0x00, 0xC1, 0x81, 0x40)
          else
            Pick(i & 0xF, 0x01, 0xC0, 0x80, 0x41, 0x00, 0xC1, 0x81, 0x40, 0x00, 0xC1, 0x81, 0x40, 0x01, 0xC0, 0x80, 0x41)
        else
          if i < 0x30 then
            Pick(i & 0xF, 0x01, 0xC0, 0x80, 0x41, 0x00, 0xC1, 0x81, 0x40, 0x00, 0xC1, 0x81, 0x40, 0x01, 0xC0, 0x80, 0x41)
          else
            Pick(i & 0xF, 0x00, 0xC1, 0x81, 0x40, 0x01, 0xC0, 0x80, 0x41, 0x01, 0xC0, 0x80, 0x41, 0x00, 0xC1, 0x81, 0x40)
      else
        if i < 0x60 then
          if i < 0x50 then
            Pick(i & 0xF, 0x01, 0xC0, 0x80, 0x41, 0x00, 0xC1, 0x81, 0x40, 0x00, 0xC1, 0x81, 0x40, 0x01, 0xC0, 0x80, 0x41)
          else
            Pick(i & 0xF, 0x00, 0xC1, 0x81, 0x40, 0x01, 0xC0, 0x80, 0x41, 0x01, 0xC0, 0x80, 0x41, 0x00, 0xC1, 0x81, 0x40)
        else
          if i < 0x70 then
            Pick(i & 0xF, 0x00, 0xC1, 0x81, 0x40, 0x01, 0xC0, 0x80, 0x41, 0x01, 0xC0, 0x80, 0x41, 0x00, 0xC1, 0x81, 0x40)
          else
            Pick(i & 0xF, 0x01, 0xC0, 0x80, 0x41, 0x00, 0xC1, 0x81, 0x40, 0x00, 0xC1, 0x81, 0x40, 0x01, 0xC0, 0x80, 0x41)
    else
      if i < 0xC0 then
        if i < 0xA0 then
          if i < 0x90 then
            Pick(i & 0xF, 0x01, 0xC0, 0x80, 0x41, 0x00, 0xC1, 0x81, 0x40, 0x00, 0xC1, 0x81, 0x40, 0x01, 0xC0, 0x80, 0x41)
          else
            Pick(i & 0xF, 0x00, 0xC1, 0x81, 0x40, 0x01, 0xC0, 0x80, 0x41, 0x01, 0xC0, 0x80, 0x41, 0x00, 0xC1, 0x81, 0x40)
        else
          if i < 0xB0 then
            Pick(i & 0xF, 0x00, 0xC1, 0x81, 0x40, 0x01, 0xC0, 0x80, 0x41, 0x01, 0xC0, 0x80, 0x41, 0x00, 0xC1, 0x81, 0x40)
          else
            Pick(i & 0xF, 0x01, 0xC0, 0x80, 0x41, 0x00, 0xC1, 0x81, 0x40, 0x00, 0xC1, 0x81, 0x40, 0x01, 0xC0, 0x80, 0x41)
      else
        if i < 0xE0 then
          if i < 0xD0 then
            Pick(i & 0xF, 0x00, 0xC1, 0x81, 0x40, 0x01, 0xC0, 0x80, 0x41, 0x01, 0xC0, 0x80, 0x41, 0x00, 0xC1, 0x81, 0x40)
          else
            Pick(i & 0xF, 0x01, 0xC0, 0x80, 0x41, 0x00, 0xC1, 0x81, 0x40, 0x00, 0xC1, 0x81, 0x40, 0x01, 0xC0, 0x80, 0x41)
        else
          if i < 0xF0 then
            Pick(i & 0xF, 0x01, 0xC0, 0x80, 0x41, 0x00, 0xC1, 0x81, 0x40, 0x00, 0xC1, 0x81, 0x40, 0x01, 0xC0, 0x80, 0x41)
          else
            Pick(i & 0xF, 0x00, 0xC1, 0x81, 0x40, 0x01, 0xC0, 0x80, 0x41, 0x01, 0xC0, 0x80, 0x41, 0x00, 0xC1, 0x81, 0x40)
  }

  /** `auchCRCLo[i]`, in sixteen rows of sixteen entries. */
  function AuchCrcLo(i: bv8): bv8 {
    if i < 0x80 then
      if i < 0x40 then
        if i < 0x20 then
          if i < 0x10 then
            Pick(i & 0xF, 0x00, 0xC0, 0xC1, 0x01, 0xC3, 0x03, 0x02, 0xC2, 0xC6, 0x06, 0x07, 0xC7, 0x05, 0xC5, 0xC4, 0x04)
          else
            Pick(i & 0xF, 0xCC, 0x0C, 0x0D, 0xCD, 0x0F, 0xCF, 0xCE, 0x0E, 0x0A, 0xCA, 0xCB, 0x0B, 0xC9, 0x09, 0x08, 0xC8)
        else
          if i < 0x30 then
            Pick(i & 0xF, 0xD8, 0x18, 0x19, 0xD9, 0x1B, 0xDB, 0xDA, 0x1A, 0x1E, 0xDE, 0xDF, 0x1F, 0xDD, 0x1D, 0x1C, 0xDC)
          else
            Pick(i & 0xF, 0x14, 0xD4, 0xD5, 0x15, 0xD7, 0x17, 0x16, 0xD6, 0xD2, 0x12, 0x13, 0xD3, 0x11, 0xD1, 0xD0, 0x10)
      else
        if i < 0x60 then
          if i < 0x50 then
            Pick(i & 0xF, 0xF0, 0x30, 0x31, 0xF1, 0x33, 0xF3, 0xF2, 0x32, 0x36, 0xF6, 0xF7, 0x37, 0xF5, 0x35, 0x34, 0xF4)
          else
            Pick(i & 0xF, 0x3C, 0xFC, 0xFD, 0x3D, 0xFF, 0x3F, 0x3E, 0xFE, 0xFA, 0x3A, 0x3B, 0xFB, 0x39, 0xF9, 0xF8, 0x38)
        else
          if i < 0x70 then
            Pick(i & 0xF, 0x28, 0xE8, 0xE9, 0x29, 0xEB, 0x2B, 0x2A, 0xEA, 0xEE, 0x2E, 0x2F, 0xEF, 0x2D, 0xED, 0xEC, 0x2C)
          else
            Pick(i & 0xF, 0xE4, 0x24, 0x25, 0xE5, 0x27, 0xE7, 0xE6, 0x26, 0x22, 0xE2, 0xE3, 0x23, 0xE1, 0x21, 0x20, 0xE0)
    else
      if i < 0xC0 then
        if i < 0xA0 then
          if i < 0x90 then
            Pick(i & 0xF, 0xA0, 0x60, 0x61, 0xA1, 0x63, 0xA3, 0xA2, 0x62, 0x66, 0xA6, 0xA7, 0x67, 0xA5, 0x65, 0x64, 0xA4)
          else
            Pick(i & 0xF, 0x6C, 0xAC, 0xAD, 0x6D, 0xAF, 0x6F, 0x6E, 0xAE, 0xAA, 0x6A, 0x6B, 0xAB, 0x69, 0xA9, 0xA8, 0x68)
        else
          if i < 0xB0 then
            Pick(i & 0xF, 0x78, 0xB8, 0xB9, 0x79, 0xBB, 0x7B, 0x7A, 0xBA, 0xBE, 0x7E, 0x7F, 0xBF, 0x7D, 0xBD, 0xBC, 0x7C)
          else
            Pick(i & 0xF, 0xB4, 0x74, 0x75, 0xB5, 0x77, 0xB7, 0xB6, 0x76, 0x72, 0xB2, 0xB3, 0x73, 0xB1, 0x71, 0x70, 0xB0)
      else
        if i < 0xE0 then
          if i < 0xD0 then
            Pick(i & 0xF, 0x50, 0x90, 0x91, 0x51, 0x93, 0x53, 0x52, 0x92, 0x96, 0x56, 0x57, 0x97, 0x55, 0x95, 0x94, 0x54)
          else
            Pick(i & 0xF, 0x9C, 0x5C, 0x5D, 0x9D, 0x5F, 0x9F, 0x9E, 0x5E, 0x5A, 0x9A, 0x9B, 0x5B, 0x99, 0x59, 0x58, 0x98)
        else
          if i < 0xF0 then
            Pick(i & 0xF, 0x88, 0x48, 0x49, 0x89, 0x4B, 0x8B, 0x8A, 0x4A, 0x4E, 0x8E, 0x8F, 0x4F, 0x8D, 0x4D, 0x4C, 0x8C)
          else
            Pick(i & 0xF, 0x44, 0x84, 0x85, 0x45, 0x87, 0x47, 0x46, 0x86, 0x82, 0x42, 0x43, 0x83, 0x41, 0x81, 0x80, 0x40)
  }

  /** The two tables hold the low and the high byte of eight bit steps on the index. */
  lemma TablesHoldShifts(i: bv8)
    ensures Widen(AuchCrcHi(i)) == Shift(8, Widen(i)) & 0xFF
    ensures Widen(AuchCrcLo(i)) == Shift(8, Widen(i)) >> 8
  {
    hide AuchCrcHi, AuchCrcLo, Shift;
    TableHi(i);
    TableLo(i);
  }

  lemma TableHi(i: bv8)
    ensures Widen(AuchCrcHi(i)) == Shift(8, Widen(i)) & 0xFF
  {
    hide Shift;
    Unroll8(Widen(i));
    if i < 0x80 {
      if i < 0x40 { if i < 0x20 {} else {} } else { if i < 0x60 {} else {} }
    } else {
      if i < 0xC0 { if i < 0xA0 {} else {} } else { if i < 0xE0 {} else {} }
    }
  }

  lemma TableLo(i: bv8)
    ensures Widen(AuchCrcLo(i)) == Shift(8, Widen(i)) >> 8
  {
    hide Shift;
    Unroll8(Widen(i));
    if i < 0x80 {
      if i < 0x40 { if i < 0x20 {} else {} } else { if i < 0x60 {} else {} }
    } else {
      if i < 0xC0 { if i < 0xA0 {} else {} } else { if i < 0xE0 {} else {} }
    }
  }

  /** One pass of the table loop is eight bit steps. */
  lemma TableStep(hi: bv8, lo: bv8, b: bv8)
    ensures Register(AuchCrcLo(Xor8(lo, b)), Xor8(hi, AuchCrcHi(Xor8(lo, b)))) == ByteStep(Register(hi, lo), b)
  {
    hide AuchCrcHi, AuchCrcLo, Shift, Register, Xor, Xor8, Widen;
    var i := Xor8(lo, b);
    TablesHoldShifts(i);
    SplitRegister(hi, lo, b);
    ShiftXor(8, Register(hi, 0), Widen(i));
    HighHalfShifts(hi);
    Recombine(hi, Shift(8, Widen(i)), AuchCrcLo(i), AuchCrcHi(i));
  }
}
