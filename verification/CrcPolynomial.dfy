/** What the checksum of `Crc` means: the remainder of long division over GF(2), most significant bit first,
    and which transmission errors it is certain to see. */
module CrcPolynomial {
  import opened CrcRegister
  import opened Crc

  type Bits = seq<bool>

  // ----- Messages and registers as bit strings -----

  function Has(r: bv16, mask: bv16): bool { r & mask != 0 }

  /** The bit of coefficient 15 - i. */
  function Mask(i: nat): bv16 {
    match i
    case 0 => 0x8000 case 1 => 0x4000 case 2 => 0x2000 case 3 => 0x1000
    case 4 => 0x0800 case 5 => 0x0400 case 6 => 0x0200 case 7 => 0x0100
    case 8 => 0x0080 case 9 => 0x0040 case 10 => 0x0020 case 11 => 0x0010
    case 12 => 0x0008 case 13 => 0x0004 case 14 => 0x0002 case 15 => 0x0001
    case _ => 0
  }

  function Bits16(r: bv16): (bits: Bits)
    ensures |bits| == 16
  {
    seq(16, i requires 0 <= i < 16 => Has(r, Mask(i)))
  }

  function Bits8(b: bv8): Bits {
    [b & 0x80 != 0, b & 0x40 != 0, b & 0x20 != 0, b & 0x10 != 0,
     b & 0x08 != 0, b & 0x04 != 0, b & 0x02 != 0, b & 0x01 != 0]
  }

  function MessageBits(msg: seq<bv8>): (bits: Bits)
    ensures |bits| == 8 * |msg|
    decreases |msg|
  {
    if |msg| == 0 then [] else Bits8(msg[0]) + MessageBits(msg[1..])
  }

  function Zeros(n: nat): Bits {
    seq(n, _ => false)
  }

  /** The sum of `d` and `w` when their leading coefficients are lined up. */
  function AddLeading(d: Bits, w: Bits): (s: Bits)
    requires |w| <= |d|
    ensures |s| == |d|
  {
    seq(|d|, i requires 0 <= i < |d| => if i < |w| then d[i] != w[i] else d[i])
  }

  /** Schoolbook division of the polynomial with coefficients `d` by x^16 + poly. */
  function Remainder(poly: bv16, d: Bits): (r: Bits)
    requires |d| >= 16
    ensures |r| == 16
    decreases |d|
  {
    if |d| == 16 then d
    else if d[0] then Remainder(poly, AddLeading(d[1..], Bits16(poly)))
    else Remainder(poly, d[1..])
  }

  // ----- The register, one message bit at a time -----

  function FeedBit(poly: bv16, r: bv16, bit: bool): bv16 {
    BitStep(poly, if bit then Xor(r, 0x8000) else r)
  }

  function Feed(poly: bv16, r: bv16, bits: Bits): bv16
    decreases |bits|
  {
    if |bits| == 0 then r else Feed(poly, FeedBit(poly, r, bits[0]), bits[1..])
  }

  lemma {:induction false} FeedAppend(poly: bv16, r: bv16, a: Bits, b: Bits)
    ensures Feed(poly, r, a + b) == Feed(poly, Feed(poly, r, a), b)
    decreases |a|
  {
    hide FeedBit;
    if |a| == 0 {
      assert a + b == b;
    } else {
      assert (a + b)[1..] == a[1..] + b;
      FeedAppend(poly, FeedBit(poly, r, a[0]), a[1..], b);
    }
  }

  /** The first of the eight shifts of a byte consumes its first bit. */
  lemma PeelBit(poly: bv16, r: bv16, b: bv8)
    ensures BitStep(poly, Insert(r, b)) == Insert(FeedBit(poly, r, b & 0x80 != 0), b << 1)
  {
    hide BitStep, Insert, Xor;
    var bit := b & 0x80 != 0;
    var w := if bit then Xor(r, 0x8000) else r;
    SplitFirstBit(r, b);
    BitStepLinear(poly, w, Tail(b));
    TailShift(poly, b);
    InsertIsXor(BitStep(poly, w), b << 1);
  }

  function Tail(b: bv8): bv16 { ((b & 0x7F) as bv16) << 8 }

  lemma SplitFirstBit(r: bv16, b: bv8)
    ensures Insert(r, b) == Xor(if b & 0x80 != 0 then Xor(r, 0x8000) else r, Tail(b))
  {
    if b & 0x80 != 0 {
      assert (b as bv16) << 8 == Xor(0x8000, Tail(b));
      Associate(r, 0x8000, Tail(b));
    } else {
      assert (b as bv16) << 8 == Tail(b);
    }
  }

  lemma Associate(a: bv16, b: bv16, c: bv16)
    ensures Xor(a, Xor(b, c)) == Xor(Xor(a, b), c)
  {}

  lemma TailShift(poly: bv16, b: bv8)
    ensures BitStep(poly, Tail(b)) == ((b << 1) as bv16) << 8
  {}

  lemma InsertIsXor(r: bv16, b: bv8)
    ensures Insert(r, b) == Xor(r, (b as bv16) << 8)
  {}

  function TopBit(b: bv8): bool { b & 0x80 != 0 }

  function FeedTop4(poly: bv16, r: bv16, b: bv8): bv16 {
    var r1 := FeedBit(poly, r, TopBit(b));
    var r2 := FeedBit(poly, r1, TopBit(b << 1));
    var r3 := FeedBit(poly, r2, TopBit(b << 2));
    FeedBit(poly, r3, TopBit(b << 3))
  }

  lemma PeelNibble(poly: bv16, r: bv16, b: bv8)
    ensures NibbleShift(poly, Insert(r, b)) == Insert(FeedTop4(poly, r, b), b << 4)
  {
    hide BitStep, Insert, FeedBit, TopBit;
    var r1 := FeedBit(poly, r, TopBit(b));
    var r2 := FeedBit(poly, r1, TopBit(b << 1));
    var r3 := FeedBit(poly, r2, TopBit(b << 2));
    PeelTop(poly, r, b);
    PeelTop(poly, r1, b << 1);
    PeelTop(poly, r2, b << 2);
    PeelTop(poly, r3, b << 3);
    Shifts(b);
  }

  lemma PeelTop(poly: bv16, r: bv16, b: bv8)
    ensures BitStep(poly, Insert(r, b)) == Insert(FeedBit(poly, r, TopBit(b)), b << 1)
  {
    hide BitStep, Insert, FeedBit;
    PeelBit(poly, r, b);
  }

  lemma Shifts(b: bv8)
    ensures (b << 1) << 1 == b << 2 && (b << 2) << 1 == b << 3 && (b << 3) << 1 == b << 4
    ensures (b << 4) << 1 == b << 5 && (b << 4) << 2 == b << 6 && (b << 4) << 3 == b << 7 && (b << 4) << 4 == 0
  {}

  /** Feeding a byte bit by bit is the byte step of the register. */
  lemma {:induction false} FeedByte(poly: bv16, r: bv16, b: bv8)
    ensures Feed(poly, r, Bits8(b)) == ByteStep(poly, r, b)
  {
    hide NibbleShift, Insert, FeedTop4;
    PeelNibble(poly, r, b);
    var m := FeedTop4(poly, r, b);
    PeelNibble(poly, m, b << 4);
    Shifts(b);
    InsertNothing(FeedTop4(poly, m, b << 4));
    FeedByteBits(poly, r, b);
  }

  lemma InsertNothing(r: bv16)
    ensures Insert(r, 0) == r
  {}

  lemma {:induction false} FeedByteBits(poly: bv16, r: bv16, b: bv8)
    ensures Feed(poly, r, Bits8(b)) == FeedTop4(poly, FeedTop4(poly, r, b), b << 4)
  {
    hide FeedBit, TopBit, Bits8;
    BitsAreTops(b);
    Shifts(b);
    var bits := Bits8(b);
    assert bits == bits[..4] + bits[4..];
    FeedAppend(poly, r, bits[..4], bits[4..]);
    FeedFour(poly, r, bits[..4]);
    FeedFour(poly, Feed(poly, r, bits[..4]), bits[4..]);
  }

  lemma BitsAreTops(b: bv8)
    ensures Bits8(b) == [TopBit(b), TopBit(b << 1), TopBit(b << 2), TopBit(b << 3),
                         TopBit(b << 4), TopBit(b << 5), TopBit(b << 6), TopBit(b << 7)]
  {}

  lemma {:induction false} FeedFour(poly: bv16, r: bv16, q: Bits)
    requires |q| == 4
    ensures Feed(poly, r, q)
         == FeedBit(poly, FeedBit(poly, FeedBit(poly, FeedBit(poly, r, q[0]), q[1]), q[2]), q[3])
  {
    hide FeedBit;
    var r1 := FeedBit(poly, r, q[0]);
    var r2 := FeedBit(poly, r1, q[1]);
    var r3 := FeedBit(poly, r2, q[2]);
    assert q[1..][1..] == q[2..] && q[2..][1..] == q[3..] && q[3..][1..] == [];
    assert Feed(poly, r3, q[3..]) == FeedBit(poly, r3, q[3]);
    assert Feed(poly, r2, q[2..]) == Feed(poly, r3, q[3..]);
    assert Feed(poly, r1, q[1..]) == Feed(poly, r2, q[2..]);
  }

  lemma {:induction false} FeedMessage(poly: bv16, r: bv16, msg: seq<bv8>)
    ensures Feed(poly, r, MessageBits(msg)) == Register(poly, r, msg)
    decreases |msg|
  {
    hide ByteStep, Bits8;
    if |msg| != 0 {
      FeedAppend(poly, r, Bits8(msg[0]), MessageBits(msg[1..]));
      FeedByte(poly, r, msg[0]);
      FeedMessage(poly, ByteStep(poly, r, msg[0]), msg[1..]);
    }
  }

  // ----- Long division -----

  /** One bit of the register is one line of the long division. */
  lemma FeedBitDivides(poly: bv16, r: bv16, bit: bool)
    ensures Bits16(FeedBit(poly, r, bit)) == DivideOnce(poly, Bits16(r), bit)
  {
    hide FeedBit, Bits16, Shl, Xor;
    FeedBitCases(poly, r, bit);
    BitsOfShl(r);
    BitsOfXor(Shl(r), poly);
    FirstBit(r);
  }

  function DivideOnce(poly: bv16, w: Bits, bit: bool): (v: Bits)
    requires |w| == 16
    ensures |v| == 16
  {
    var shifted := w[1..] + [false];
    if bit != w[0] then AddLeading(shifted, Bits16(poly)) else shifted
  }

  lemma FirstBit(r: bv16)
    ensures Bits16(r)[0] == Top(r)
  {}

  lemma FeedBitCases(poly: bv16, r: bv16, bit: bool)
    ensures FeedBit(poly, r, bit) == if bit != Top(r) then Xor(Shl(r), poly) else Shl(r)
  {
    hide Shl, Xor;
    TopXor(r, 0x8000);
    ShlXor(r, 0x8000);
    ShlTop(Shl(r));
  }

  lemma ShlTop(r: bv16)
    ensures Top(0x8000) && Xor(r, Shl(0x8000)) == r
  {}

  lemma BitsOfXor(a: bv16, b: bv16)
    ensures Bits16(Xor(a, b)) == AddLeading(Bits16(a), Bits16(b))
  {
    hide Xor, Has, Mask;
    forall i: nat | i < 16 ensures Has(Xor(a, b), Mask(i)) == (Has(a, Mask(i)) != Has(b, Mask(i))) {
      MaskIsOneBit(i);
      HasXor(a, b, Mask(i));
    }
  }

  lemma BitsOfShl(r: bv16)
    ensures Bits16(Shl(r)) == Bits16(r)[1..] + [false]
  {
    hide Shl, Has, Mask;
    forall i: nat | i < 16 ensures Has(Shl(r), Mask(i)) == Has(r, Mask(i) >> 1) {
      HasShl(r, Mask(i));
    }
    forall i: nat | i < 16 ensures Mask(i) >> 1 == Mask(i + 1) {
      NextMask(i);
    }
    HasNothing(r);
  }

  lemma MaskIsOneBit(i: nat)
    ensures Mask(i) & (Mask(i) - 1) == 0
  {}

  lemma NextMask(i: nat)
    requires i < 16
    ensures Mask(i) >> 1 == Mask(i + 1)
  {}

  lemma HasNothing(r: bv16)
    ensures !Has(r, Mask(16))
  {}

  lemma HasXor(a: bv16, b: bv16, m: bv16)
    requires m & (m - 1) == 0
    ensures Has(Xor(a, b), m) == (Has(a, m) != Has(b, m))
  {
    HasXorRaw(a, b, m);
  }

  lemma HasXorRaw(a: bv16, b: bv16, m: bv16)
    requires m & (m - 1) == 0
    ensures ((a ^ b) & m != 0) == ((a & m != 0) != (b & m != 0))
  {}

  lemma HasShl(r: bv16, m: bv16)
    ensures Has(Shl(r), m) == Has(r, m >> 1)
  {}

  /** Dividing what is left of the message, padded with sixteen zeros and with the register added in front,
      leaves the register that the rest of the message produces. */
  lemma {:induction false} FeedIsRemainder(poly: bv16, r: bv16, bits: Bits)
    ensures Bits16(Feed(poly, r, bits)) == Remainder(poly, AddLeading(bits + Zeros(16), Bits16(r)))
    decreases |bits|
  {
    hide Bits16, FeedBit, DivideOnce;
    var d := AddLeading(bits + Zeros(16), Bits16(r));
    if |bits| == 0 {
      assert d == Bits16(r);
    } else {
      var next := FeedBit(poly, r, bits[0]);
      FeedIsRemainder(poly, next, bits[1..]);
      FeedBitDivides(poly, r, bits[0]);
      DivideDividend(poly, Bits16(r), bits);
    }
  }

  lemma {:induction false} DivideDividend(poly: bv16, w: Bits, bits: Bits)
    requires |w| == 16 && |bits| > 0
    ensures Remainder(poly, AddLeading(bits + Zeros(16), w))
         == Remainder(poly, AddLeading(bits[1..] + Zeros(16), DivideOnce(poly, w, bits[0])))
  {
    hide Bits16;
    var d := AddLeading(bits + Zeros(16), w);
    var e := AddLeading(bits[1..] + Zeros(16), DivideOnce(poly, w, bits[0]));
    if d[0] {
      assert AddLeading(d[1..], Bits16(poly)) == e;
    } else {
      assert d[1..] == e;
    }
  }

  /** The checksum of a message is the remainder of the message times x^16, its leading sixteen coefficients
      changed by the start value, divided by x^16 + x^12 + x^5 + 1. */
  lemma {:induction false} Crc1021IsRemainder(msg: seq<bv8>, precrc: bv16)
    ensures Bits16(Crc1021(msg, precrc))
         == Remainder(0x1021, AddLeading(MessageBits(msg) + Zeros(16), Bits16(precrc)))
  {
    hide Crc1021, Register, Feed, Bits16, Remainder;
    Crc1021IsRegister(msg, precrc);
    FeedMessage(0x1021, precrc, msg);
    FeedIsRemainder(0x1021, precrc, MessageBits(msg));
  }

  /** The slave-bus checksum is the same division by x^16 + x^15 + x^2 + 1, every byte, the start value and the
      result read backwards. */
  lemma Crc8005IsRemainder(msg: seq<bv8>, precrc: bv16)
    ensures Bits16(Reverse16(Crc8005(msg, precrc)))
         == Remainder(0x8005, AddLeading(MessageBits(ReverseEach(msg)) + Zeros(16), Bits16(Reverse16(precrc))))
  {
    hide Crc8005, Register, Feed, Bits16, Remainder, Reverse16;
    Crc8005IsRegister(msg, precrc);
    Reverse16Involution(Register(0x8005, Reverse16(precrc), ReverseEach(msg)));
    FeedMessage(0x8005, Reverse16(precrc), ReverseEach(msg));
    FeedIsRemainder(0x8005, Reverse16(precrc), MessageBits(ReverseEach(msg)));
  }

  /** `Reverse`, which swaps two looked-up nibbles, reads a byte backwards. */
  lemma ReverseIsBackwards(n: bv8)
    ensures Bits8(Reverse(n)) == [n & 0x01 != 0, n & 0x02 != 0, n & 0x04 != 0, n & 0x08 != 0,
                                  n & 0x10 != 0, n & 0x20 != 0, n & 0x40 != 0, n & 0x80 != 0]
  {}
}
