/** The checksums of src/module/Utils.cpp: a table-driven loop shared by the 0x1021 variant that protects
    controller packets and by the mirrored 0x8005 variant that protects the slave bus. */
module Crc {
  import opened Words
  import opened CrcRegister
  import opened CrcTables

  // ----- Bit reversal -----

  function ReverseNibble(n: bv8): bv8 {
    match n & 15
    case 0 => 0x0 case 1 => 0x8 case 2 => 0x4 case 3 => 0xc
    case 4 => 0x2 case 5 => 0xa case 6 => 0x6 case 7 => 0xe
    case 8 => 0x1 case 9 => 0x9 case 10 => 0x5 case 11 => 0xd
    case 12 => 0x3 case 13 => 0xb case 14 => 0x7 case 15 => 0xf
  }

  function Reverse(n: bv8): bv8 {
    (ReverseNibble(n) << 4) | ReverseNibble(n >> 4)
  }

  function Reverse16(r: bv16): bv16 {
    (Reverse(HighByte(r)) as bv16) + ((Reverse(LowByte(r)) as bv16) << 8)
  }

  function ReverseEach(msg: seq<bv8>): (r: seq<bv8>)
    ensures |r| == |msg|
  {
    seq(|msg|, i requires 0 <= i < |msg| => Reverse(msg[i]))
  }

  lemma ReverseInvolution(n: bv8)
    ensures Reverse(Reverse(n)) == n
  {}

  lemma Reverse16Bytes(r: bv16)
    ensures HighByte(Reverse16(r)) == Reverse(LowByte(r))
    ensures LowByte(Reverse16(r)) == Reverse(HighByte(r))
  {
    hide Reverse;
  }

  lemma Reverse16Involution(r: bv16)
    ensures Reverse16(Reverse16(r)) == r
  {
    hide Reverse;
    Reverse16Bytes(r);
    ReverseInvolution(HighByte(r));
    ReverseInvolution(LowByte(r));
  }

  // ----- The checksums -----

  /** What the parameters of `Crc16` mean: the shift register over the message, with its bytes and its contents
      mirrored on the way in and out as asked. */
  function Checksum(poly: bv16, msg: seq<bv8>, init: bv16, refIn: bool, refOut: bool, xorOut: bv16): bv16 {
    Xor(Mirror(refOut, Register(poly, Mirror(refIn, init), if refIn then ReverseEach(msg) else msg)), xorOut)
  }

  function Mirror(on: bool, r: bv16): bv16 {
    if on then Reverse16(r) else r
  }

  function Crc1021(msg: seq<bv8>, precrc: bv16 := 0): bv16 {
    Checksum(0x1021, msg, precrc, false, false, 0)
  }

  function Crc8005(msg: seq<bv8>, precrc: bv16 := 0): bv16 {
    Checksum(0x8005, msg, precrc, true, true, 0)
  }

  method Crc16(table: bv8 -> bv16, ghost poly: bv16, buf: seq<bv8>, init: bv16, refIn: bool, refOut: bool,
               xorOut: bv16)
    returns (result: bv16)
    requires IsTableOf(table, poly)
    ensures result == Checksum(poly, buf, init, refIn, refOut, xorOut)
  {
    hide TableStep, ByteStep, Reverse16, Reverse, IsTableOf, Xor;
    var crc := init;
    if refIn {
      crc := Reverse16(crc);
      ghost var msg := ReverseEach(buf);
      for index := 0 to |buf|
        invariant Register(poly, crc, msg[index..]) == Register(poly, Reverse16(init), msg)
      {
        TableStepIsByteStep(table, poly, crc, Reverse(buf[index]));
        assert msg[index..][1..] == msg[index + 1..];
        crc := TableStep(table, crc, Reverse(buf[index]));
      }
    } else {
      for index := 0 to |buf|
        invariant Register(poly, crc, buf[index..]) == Register(poly, init, buf)
      {
        TableStepIsByteStep(table, poly, crc, buf[index]);
        assert buf[index..][1..] == buf[index + 1..];
        crc := TableStep(table, crc, buf[index]);
      }
    }
    if refOut {
      crc := Reverse16(crc);
    }
    result := Xor(crc, xorOut);
  }

  method Crc16_1021(buf: seq<bv8>, precrc: bv16 := 0) returns (crc: bv16)
    ensures crc == Crc1021(buf, precrc)
  {
    Table1021IsRight();
    crc := Crc16(Table1021, 0x1021, buf, precrc, false, false, 0);
  }

  method Crc16_8005(buf: seq<bv8>, precrc: bv16 := 0) returns (crc: bv16)
    ensures crc == Crc8005(buf, precrc)
  {
    Table8005IsRight();
    crc := Crc16(Table8005, 0x8005, buf, precrc, true, true, 0);
  }

  lemma {:induction false} Crc1021IsRegister(msg: seq<bv8>, precrc: bv16)
    ensures Crc1021(msg, precrc) == Register(0x1021, precrc, msg)
  {
    hide Register, Xor;
    XorNothing(Register(0x1021, precrc, msg));
  }

  lemma XorNothing(r: bv16)
    ensures Xor(r, 0) == r
  {}

  lemma Crc8005IsRegister(msg: seq<bv8>, precrc: bv16)
    ensures Crc8005(msg, precrc) == Reverse16(Register(0x8005, Reverse16(precrc), ReverseEach(msg)))
  {
    hide Register, Reverse16, Xor;
    XorNothing(Reverse16(Register(0x8005, Reverse16(precrc), ReverseEach(msg))));
  }

  /** A message may be checked in pieces, each piece starting from the CRC of what came before. */
  lemma Crc1021Chains(a: seq<bv8>, b: seq<bv8>, precrc: bv16)
    ensures Crc1021(a + b, precrc) == Crc1021(b, Crc1021(a, precrc))
  {
    hide Crc1021, Register;
    Crc1021IsRegister(a + b, precrc);
    Crc1021IsRegister(a, precrc);
    Crc1021IsRegister(b, Crc1021(a, precrc));
    RegisterAppend(0x1021, precrc, a, b);
  }

  /** The same for the mirrored variant, whose register is the mirror image of the CRC it reports. */
  lemma Crc8005Chains(a: seq<bv8>, b: seq<bv8>, precrc: bv16)
    ensures Crc8005(a + b, precrc) == Crc8005(b, Crc8005(a, precrc))
  {
    hide Crc8005, Register, Reverse16, Reverse;
    var r := Register(0x8005, Reverse16(precrc), ReverseEach(a));
    Crc8005IsRegister(a + b, precrc);
    Crc8005IsRegister(a, precrc);
    Crc8005IsRegister(b, Crc8005(a, precrc));
    Reverse16Involution(r);
    assert ReverseEach(a + b) == ReverseEach(a) + ReverseEach(b);
    RegisterAppend(0x8005, Reverse16(precrc), ReverseEach(a), ReverseEach(b));
  }

  /** A message followed by two bytes has CRC zero exactly when they are its own CRC, high byte first. */
  lemma AppendedCrc1021(msg: seq<bv8>, precrc: bv16, x: bv8, y: bv8)
    ensures Crc1021(msg + [x, y], precrc) == 0
       <==> x == HighByte(Crc1021(msg, precrc)) && y == LowByte(Crc1021(msg, precrc))
  {
    hide Crc1021, Register, HighByte, LowByte, Word;
    var r := Register(0x1021, precrc, msg);
    Crc1021IsRegister(msg + [x, y], precrc);
    Crc1021IsRegister(msg, precrc);
    RegisterAppend(0x1021, precrc, msg, [x, y]);
    TwoBytesClear(0x1021, r, x, y);
    WordBytes(r, x, y);
  }

  lemma WordBytes(r: bv16, x: bv8, y: bv8)
    ensures Word(x, y) == r <==> x == HighByte(r) && y == LowByte(r)
  {
    hide Word, HighByte, LowByte;
    BytesOfWord(x, y);
    WordOfBytes(r);
  }

  /** For the mirrored variant the two bytes have to be appended low byte first. */
  lemma AppendedCrc8005(msg: seq<bv8>, precrc: bv16, x: bv8, y: bv8)
    ensures Crc8005(msg + [x, y], precrc) == 0
       <==> x == LowByte(Crc8005(msg, precrc)) && y == HighByte(Crc8005(msg, precrc))
  {
    hide Crc8005, Register, Reverse16, Reverse, HighByte, LowByte, Word;
    var r := Register(0x8005, Reverse16(precrc), ReverseEach(msg));
    Crc8005IsRegister(msg + [x, y], precrc);
    Crc8005IsRegister(msg, precrc);
    assert ReverseEach(msg + [x, y]) == ReverseEach(msg) + [Reverse(x), Reverse(y)];
    RegisterAppend(0x8005, Reverse16(precrc), ReverseEach(msg), [Reverse(x), Reverse(y)]);
    TwoBytesClear(0x8005, r, Reverse(x), Reverse(y));
    WordBytes(r, Reverse(x), Reverse(y));
    MirrorZero(Register(0x8005, r, [Reverse(x), Reverse(y)]));
    Reverse16Bytes(r);
    ReverseInvolution(x);
    ReverseInvolution(y);
    ReverseInvolution(HighByte(r));
    ReverseInvolution(LowByte(r));
  }

  lemma MirrorZero(r: bv16)
    ensures Reverse16(r) == 0 <==> r == 0
  {
    Reverse16Involution(r);
    assert Reverse16(0) == 0;
  }
}
