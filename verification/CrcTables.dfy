/** The lookup tables of src/module/Utils.cpp, row by row, and the update of its loop. */
module CrcTables {
  import opened CrcRegister

  function Pick(i: bv8, v0: bv16, v1: bv16, v2: bv16, v3: bv16, v4: bv16, v5: bv16, v6: bv16, v7: bv16): bv16 {
    if i == 0 then v0 else if i == 1 then v1 else if i == 2 then v2 else if i == 3 then v3
    else if i == 4 then v4 else if i == 5 then v5 else if i == 6 then v6 else v7
  }

  function Table1021(i: bv8): bv16 {
    match i >> 3
    case 0 => Pick(i & 7, 0x0000, 0x1021, 0x2042, 0x3063, 0x4084, 0x50A5, 0x60C6, 0x70E7)
    case 1 => Pick(i & 7, 0x8108, 0x9129, 0xA14A, 0xB16B, 0xC18C, 0xD1AD, 0xE1CE, 0xF1EF)
    case 2 => Pick(i & 7, 0x1231, 0x0210, 0x3273, 0x2252, 0x52B5, 0x4294, 0x72F7, 0x62D6)
    case 3 => Pick(i & 7, 0x9339, 0x8318, 0xB37B, 0xA35A, 0xD3BD, 0xC39C, 0xF3FF, 0xE3DE)
    case 4 => Pick(i & 7, 0x2462, 0x3443, 0x0420, 0x1401, 0x64E6, 0x74C7, 0x44A4, 0x5485)
    case 5 => Pick(i & 7, 0xA56A, 0xB54B, 0x8528, 0x9509, 0xE5EE, 0xF5CF, 0xC5AC, 0xD58D)
    case 6 => Pick(i & 7, 0x3653, 0x2672, 0x1611, 0x0630, 0x76D7, 0x66F6, 0x5695, 0x46B4)
    case 7 => Pick(i & 7, 0xB75B, 0xA77A, 0x9719, 0x8738, 0xF7DF, 0xE7FE, 0xD79D, 0xC7BC)
    case 8 => Pick(i & 7, 0x48C4, 0x58E5, 0x6886, 0x78A7, 0x0840, 0x1861, 0x2802, 0x3823)
    case 9 => Pick(i & 7, 0xC9CC, 0xD9ED, 0xE98E, 0xF9AF, 0x8948, 0x9969, 0xA90A, 0xB92B)
    case 10 => Pick(i & 7, 0x5AF5, 0x4AD4, 0x7AB7, 0x6A96, 0x1A71, 0x0A50, 0x3A33, 0x2A12)
    case 11 => Pick(i & 7, 0xDBFD, 0xCBDC, 0xFBBF, 0xEB9E, 0x9B79, 0x8B58, 0xBB3B, 0xAB1A)
    case 12 => Pick(i & 7, 0x6CA6, 0x7C87, 0x4CE4, 0x5CC5, 0x2C22, 0x3C03, 0x0C60, 0x1C41)
    case 13 => Pick(i & 7, 0xEDAE, 0xFD8F, 0xCDEC, 0xDDCD, 0xAD2A, 0xBD0B, 0x8D68, 0x9D49)
    case 14 => Pick(i & 7, 0x7E97, 0x6EB6, 0x5ED5, 0x4EF4, 0x3E13, 0x2E32, 0x1E51, 0x0E70)
    case 15 => Pick(i & 7, 0xFF9F, 0xEFBE, 0xDFDD, 0xCFFC, 0xBF1B, 0xAF3A, 0x9F59, 0x8F78)
    case 16 => Pick(i & 7, 0x9188, 0x81A9, 0xB1CA, 0xA1EB, 0xD10C, 0xC12D, 0xF14E, 0xE16F)
    case 17 => Pick(i & 7, 0x1080, 0x00A1, 0x30C2, 0x20E3, 0x5004, 0x4025, 0x7046, 0x6067)
    case 18 => Pick(i & 7, 0x83B9, 0x9398, 0xA3FB, 0xB3DA, 0xC33D, 0xD31C, 0xE37F, 0xF35E)
    case 19 => Pick(i & 7, 0x02B1, 0x1290, 0x22F3, 0x32D2, 0x4235, 0x5214, 0x6277, 0x7256)
    case 20 => Pick(i & 7, 0xB5EA, 0xA5CB, 0x95A8, 0x8589, 0xF56E, 0xE54F, 0xD52C, 0xC50D)
    case 21 => Pick(i & 7, 0x34E2, 0x24C3, 0x14A0, 0x0481, 0x7466, 0x6447, 0x5424, 0x4405)
    case 22 => Pick(i & 7, 0xA7DB, 0xB7FA, 0x8799, 0x97B8, 0xE75F, 0xF77E, 0xC71D, 0xD73C)
    case 23 => Pick(i & 7, 0x26D3, 0x36F2, 0x0691, 0x16B0, 0x6657, 0x7676, 0x4615, 0x5634)
    case 24 => Pick(i & 7, 0xD94C, 0xC96D, 0xF90E, 0xE92F, 0x99C8, 0x89E9, 0xB98A, 0xA9AB)
    case 25 => Pick(i & 7, 0x5844, 0x4865, 0x7806, 0x6827, 0x18C0, 0x08E1, 0x3882, 0x28A3)
    case 26 => Pick(i & 7, 0xCB7D, 0xDB5C, 0xEB3F, 0xFB1E, 0x8BF9, 0x9BD8, 0xABBB, 0xBB9A)
    case 27 => Pick(i & 7, 0x4A75, 0x5A54, 0x6A37, 0x7A16, 0x0AF1, 0x1AD0, 0x2AB3, 0x3A92)
    case 28 => Pick(i & 7, 0xFD2E, 0xED0F, 0xDD6C, 0xCD4D, 0xBDAA, 0xAD8B, 0x9DE8, 0x8DC9)
    case 29 => Pick(i & 7, 0x7C26, 0x6C07, 0x5C64, 0x4C45, 0x3CA2, 0x2C83, 0x1CE0, 0x0CC1)
    case 30 => Pick(i & 7, 0xEF1F, 0xFF3E, 0xCF5D, 0xDF7C, 0xAF9B, 0xBFBA, 0x8FD9, 0x9FF8)
    case 31 => Pick(i & 7, 0x6E17, 0x7E36, 0x4E55, 0x5E74, 0x2E93, 0x3EB2, 0x0ED1, 0x1EF0)
  }

  function Table8005(i: bv8): bv16 {
    match i >> 3
    case 0 => Pick(i & 7, 0x0000, 0x8005, 0x800F, 0x000A, 0x801B, 0x001E, 0x0014, 0x8011)
    case 1 => Pick(i & 7, 0x8033, 0x0036, 0x003C, 0x8039, 0x0028, 0x802D, 0x8027, 0x0022)
    case 2 => Pick(i & 7, 0x8063, 0x0066, 0x006C, 0x8069, 0x0078, 0x807D, 0x8077, 0x0072)
    case 3 => Pick(i & 7, 0x0050, 0x8055, 0x805F, 0x005A, 0x804B, 0x004E, 0x0044, 0x8041)
    case 4 => Pick(i & 7, 0x80C3, 0x00C6, 0x00CC, 0x80C9, 0x00D8, 0x80DD, 0x80D7, 0x00D2)
    case 5 => Pick(i & 7, 0x00F0, 0x80F5, 0x80FF, 0x00FA, 0x80EB, 0x00EE, 0x00E4, 0x80E1)
    case 6 => Pick(i & 7, 0x00A0, 0x80A5, 0x80AF, 0x00AA, 0x80BB, 0x00BE, 0x00B4, 0x80B1)
    case 7 => Pick(i & 7, 0x8093, 0x0096, 0x009C, 0x8099, 0x0088, 0x808D, 0x8087, 0x0082)
    case 8 => Pick(i & 7, 0x8183, 0x0186, 0x018C, 0x8189, 0x0198, 0x819D, 0x8197, 0x0192)
    case 9 => Pick(i & 7, 0x01B0, 0x81B5, 0x81BF, 0x01BA, 0x81AB, 0x01AE, 0x01A4, 0x81A1)
    case 10 => Pick(i & 7, 0x01E0, 0x81E5, 0x81EF, 0x01EA, 0x81FB, 0x01FE, 0x01F4, 0x81F1)
    case 11 => Pick(i & 7, 0x81D3, 0x01D6, 0x01DC, 0x81D9, 0x01C8, 0x81CD, 0x81C7, 0x01C2)
    case 12 => Pick(i & 7, 0x0140, 0x8145, 0x814F, 0x014A, 0x815B, 0x015E, 0x0154, 0x8151)
    case 13 => Pick(i & 7, 0x8173, 0x0176, 0x017C, 0x8179, 0x0168, 0x816D, 0x8167, 0x0162)
    case 14 => Pick(i & 7, 0x8123, 0x0126, 0x012C, 0x8129, 0x0138, 0x813D, 0x8137, 0x0132)
    case 15 => Pick(i & 7, 0x0110, 0x8115, 0x811F, 0x011A, 0x810B, 0x010E, 0x0104, 0x8101)
    case 16 => Pick(i & 7, 0x8303, 0x0306, 0x030C, 0x8309, 0x0318, 0x831D, 0x8317, 0x0312)
    case 17 => Pick(i & 7, 0x0330, 0x8335, 0x833F, 0x033A, 0x832B, 0x032E, 0x0324, 0x8321)
    case 18 => Pick(i & 7, 0x0360, 0x8365, 0x836F, 0x036A, 0x837B, 0x037E, 0x0374, 0x8371)
    case 19 => Pick(i & 7, 0x8353, 0x0356, 0x035C, 0x8359, 0x0348, 0x834D, 0x8347, 0x0342)
    case 20 => Pick(i & 7, 0x03C0, 0x83C5, 0x83CF, 0x03CA, 0x83DB, 0x03DE, 0x03D4, 0x83D1)
    case 21 => Pick(i & 7, 0x83F3, 0x03F6, 0x03FC, 0x83F9, 0x03E8, 0x83ED, 0x83E7, 0x03E2)
    case 22 => Pick(i & 7, 0x83A3, 0x03A6, 0x03AC, 0x83A9, 0x03B8, 0x83BD, 0x83B7, 0x03B2)
    case 23 => Pick(i & 7, 0x0390, 0x8395, 0x839F, 0x039A, 0x838B, 0x038E, 0x0384, 0x8381)
    case 24 => Pick(i & 7, 0x0280, 0x8285, 0x828F, 0x028A, 0x829B, 0x029E, 0x0294, 0x8291)
    case 25 => Pick(i & 7, 0x82B3, 0x02B6, 0x02BC, 0x82B9, 0x02A8, 0x82AD, 0x82A7, 0x02A2)
    case 26 => Pick(i & 7, 0x82E3, 0x02E6, 0x02EC, 0x82E9, 0x02F8, 0x82FD, 0x82F7, 0x02F2)
    case 27 => Pick(i & 7, 0x02D0, 0x82D5, 0x82DF, 0x02DA, 0x82CB, 0x02CE, 0x02C4, 0x82C1)
    case 28 => Pick(i & 7, 0x8243, 0x0246, 0x024C, 0x8249, 0x0258, 0x825D, 0x8257, 0x0252)
    case 29 => Pick(i & 7, 0x0270, 0x8275, 0x827F, 0x027A, 0x826B, 0x026E, 0x0264, 0x8261)
    case 30 => Pick(i & 7, 0x0220, 0x8225, 0x822F, 0x022A, 0x823B, 0x023E, 0x0234, 0x8231)
    case 31 => Pick(i & 7, 0x8213, 0x0216, 0x021C, 0x8219, 0x0208, 0x820D, 0x8207, 0x0202)
  }


  ghost predicate IsTableOf(table: bv8 -> bv16, poly: bv16) {
    forall i: bv8 :: table(i) == ByteShift(poly, High(i))
  }

  function TableIndex(r: bv16, b: bv8): bv8 { ((r >> 8) as bv8) ^ b }

  /** The update in the loop of the source. */
  function TableStep(table: bv8 -> bv16, r: bv16, b: bv8): bv16 {
    Xor(r << 8, table(TableIndex(r, b)))
  }

  lemma Table1021IsRight()
    ensures IsTableOf(Table1021, 0x1021)
  {
    forall i: bv8 ensures Table1021(i) == ByteShift(0x1021, High(i)) {
      Table1021Entry(i);
    }
  }

  /** Every entry is the register after eight shifts, one column of the printed table at a time. */
  lemma Table1021Entry(i: bv8)
    ensures Table1021(i) == ByteShift(0x1021, High(i))
  {
    hide Table1021, ByteShift, High;
    match i & 7
    case 0 => Column1021_0(i);
    case 1 => Column1021_1(i);
    case 2 => Column1021_2(i);
    case 3 => Column1021_3(i);
    case 4 => Column1021_4(i);
    case 5 => Column1021_5(i);
    case 6 => Column1021_6(i);
    case 7 => Column1021_7(i);
  }

  lemma Column1021_0(i: bv8)
    requires i & 7 == 0
    ensures Table1021(i) == ByteShift(0x1021, High(i))
  {}

  lemma Column1021_1(i: bv8)
    requires i & 7 == 1
    ensures Table1021(i) == ByteShift(0x1021, High(i))
  {}

  lemma Column1021_2(i: bv8)
    requires i & 7 == 2
    ensures Table1021(i) == ByteShift(0x1021, High(i))
  {}

  lemma Column1021_3(i: bv8)
    requires i & 7 == 3
    ensures Table1021(i) == ByteShift(0x1021, High(i))
  {}

  lemma Column1021_4(i: bv8)
    requires i & 7 == 4
    ensures Table1021(i) == ByteShift(0x1021, High(i))
  {}

  lemma Column1021_5(i: bv8)
    requires i & 7 == 5
    ensures Table1021(i) == ByteShift(0x1021, High(i))
  {}

  lemma Column1021_6(i: bv8)
    requires i & 7 == 6
    ensures Table1021(i) == ByteShift(0x1021, High(i))
  {}

  lemma Column1021_7(i: bv8)
    requires i & 7 == 7
    ensures Table1021(i) == ByteShift(0x1021, High(i))
  {}

  lemma Table8005IsRight()
    ensures IsTableOf(Table8005, 0x8005)
  {
    forall i: bv8 ensures Table8005(i) == ByteShift(0x8005, High(i)) {
      Table8005Entry(i);
    }
  }

  /** Every entry is the register after eight shifts, one column of the printed table at a time. */
  lemma Table8005Entry(i: bv8)
    ensures Table8005(i) == ByteShift(0x8005, High(i))
  {
    hide Table8005, ByteShift, High;
    match i & 7
    case 0 => Column8005_0(i);
    case 1 => Column8005_1(i);
    case 2 => Column8005_2(i);
    case 3 => Column8005_3(i);
    case 4 => Column8005_4(i);
    case 5 => Column8005_5(i);
    case 6 => Column8005_6(i);
    case 7 => Column8005_7(i);
  }

  lemma Column8005_0(i: bv8)
    requires i & 7 == 0
    ensures Table8005(i) == ByteShift(0x8005, High(i))
  {}

  lemma Column8005_1(i: bv8)
    requires i & 7 == 1
    ensures Table8005(i) == ByteShift(0x8005, High(i))
  {}

  lemma Column8005_2(i: bv8)
    requires i & 7 == 2
    ensures Table8005(i) == ByteShift(0x8005, High(i))
  {}

  lemma Column8005_3(i: bv8)
    requires i & 7 == 3
    ensures Table8005(i) == ByteShift(0x8005, High(i))
  {}

  lemma Column8005_4(i: bv8)
    requires i & 7 == 4
    ensures Table8005(i) == ByteShift(0x8005, High(i))
  {}

  lemma Column8005_5(i: bv8)
    requires i & 7 == 5
    ensures Table8005(i) == ByteShift(0x8005, High(i))
  {}

  lemma Column8005_6(i: bv8)
    requires i & 7 == 6
    ensures Table8005(i) == ByteShift(0x8005, High(i))
  {}

  lemma Column8005_7(i: bv8)
    requires i & 7 == 7
    ensures Table8005(i) == ByteShift(0x8005, High(i))
  {}

  /** The table update of the source is the shift-register step. */
  lemma TableStepIsByteStep(table: bv8 -> bv16, poly: bv16, r: bv16, b: bv8)
    requires IsTableOf(table, poly)
    ensures TableStep(table, r, b) == ByteStep(poly, r, b)
  {
    hide Xor, High, Low, ByteShift, TableIndex, Insert;
    var i := TableIndex(r, b);
    SplitIndex(r, b);
    ByteShiftLinear(poly, Low(r), High(i));
    ByteShiftLow(poly, r);
  }

  lemma SplitIndex(r: bv16, b: bv8)
    ensures Insert(r, b) == Xor(Low(r), High(TableIndex(r, b)))
  {}
}
