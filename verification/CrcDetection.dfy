/** The transmission errors neither checksum of `Crc` ever misses: every burst of at most sixteen bits, wherever it
    starts, and every odd number of flipped bits. */
module CrcDetection {
  import opened Words
  import opened CrcRegister
  import opened Crc
  import opened CrcPolynomial

  // ----- Bursts -----

  function Weight(bit: bool, w: bv8): bv8 { if bit then w else 0 }

  function ByteOf(m: Bits): bv8
    requires |m| == 8
  {
    Weight(m[0], 0x80) | Weight(m[1], 0x40) | Weight(m[2], 0x20) | Weight(m[3], 0x10) |
    Weight(m[4], 0x08) | Weight(m[5], 0x04) | Weight(m[6], 0x02) | Weight(m[7], 0x01)
  }

  lemma BitsOfByte(m: Bits)
    requires |m| == 8
    ensures Bits8(ByteOf(m)) == m
  {}

  lemma {:induction false} SixteenBits(poly: bv16, r: bv16, m: Bits)
    requires |m| == 16
    ensures Feed(poly, r, m) == ByteShift(poly, ByteShift(poly, Xor(r, Word(ByteOf(m[..8]), ByteOf(m[8..])))))
  {
    hide Feed, Bits8, ByteOf, ByteShift, ByteStep, Xor, Word;
    var x, y := ByteOf(m[..8]), ByteOf(m[8..]);
    assert m == m[..8] + m[8..];
    FeedAppend(poly, r, m[..8], m[8..]);
    BitsOfByte(m[..8]);
    BitsOfByte(m[8..]);
    FeedByte(poly, r, x);
    FeedByte(poly, ByteStep(poly, r, x), y);
    TwoByteSteps(poly, r, x, y);
  }

  /** Sixteen message bits can steer the register anywhere, each choice somewhere else. */
  lemma {:induction false} SixteenBitsInjective(poly: bv16, r: bv16, u: Bits, v: Bits)
    requires poly & 1 == 1 && |u| == 16 && |v| == 16
    requires Feed(poly, r, u) == Feed(poly, r, v)
    ensures u == v
  {
    hide Feed, Bits8, ByteOf, ByteShift, Xor, Word, HighByte, LowByte;
    var x1, y1 := ByteOf(u[..8]), ByteOf(u[8..]);
    var x2, y2 := ByteOf(v[..8]), ByteOf(v[8..]);
    var du, dv := Xor(r, Word(x1, y1)), Xor(r, Word(x2, y2));
    SixteenBits(poly, r, u);
    SixteenBits(poly, r, v);
    ByteShiftInjective(poly, ByteShift(poly, du), ByteShift(poly, dv));
    ByteShiftInjective(poly, du, dv);
    XorCancels(r, Word(x1, y1), Word(x2, y2));
    BytesOfWord(x1, y1);
    BytesOfWord(x2, y2);
    BitsOfByte(u[..8]);
    BitsOfByte(u[8..]);
    BitsOfByte(v[..8]);
    BitsOfByte(v[8..]);
    assert u == u[..8] + u[8..] && v == v[..8] + v[8..];
  }

  lemma XorCancels(r: bv16, a: bv16, b: bv16)
    ensures Xor(r, a) == Xor(r, b) ==> a == b
  {
    hide Xor;
    XorBack(r, a);
    XorBack(r, b);
  }

  lemma XorBack(r: bv16, a: bv16)
    ensures Xor(r, Xor(r, a)) == a
  {}

  lemma {:induction false} FeedInjective(poly: bv16, r: bv16, s: bv16, bits: Bits)
    requires poly & 1 == 1 && Feed(poly, r, bits) == Feed(poly, s, bits)
    ensures r == s
    decreases |bits|
  {
    hide FeedBit;
    if |bits| != 0 {
      FeedInjective(poly, FeedBit(poly, r, bits[0]), FeedBit(poly, s, bits[0]), bits[1..]);
      FeedBitInjective(poly, r, s, bits[0]);
    }
  }

  lemma FeedBitInjective(poly: bv16, r: bv16, s: bv16, bit: bool)
    requires poly & 1 == 1 && FeedBit(poly, r, bit) == FeedBit(poly, s, bit)
    ensures r == s
  {
    hide BitStep, Xor;
    var r', s' := if bit then Xor(r, 0x8000) else r, if bit then Xor(s, 0x8000) else s;
    BitStepInjective(poly, r', s');
    XorTwice(r, 0x8000);
    XorTwice(s, 0x8000);
  }

  /** Bit strings that agree outside a window of sixteen leave different registers, unless they are the same. */
  lemma {:induction false} BurstChangesRegister(poly: bv16, r: bv16, a: Bits, b: Bits, t: nat, w: nat)
    requires poly & 1 == 1
    requires |a| == |b| && w <= 16 && t + w <= |a|
    requires a[..t] == b[..t] && a[t + w..] == b[t + w..]
    requires Feed(poly, r, a) == Feed(poly, r, b)
    ensures a == b
  {
    hide Feed;
    var s := Feed(poly, r, a[..t]);
    var u, v, rest := a[t..t + w], b[t..t + w], a[t + w..];
    assert a == a[..t] + (u + rest) && b == b[..t] + (v + rest);
    FeedAppend(poly, r, a[..t], u + rest);
    FeedAppend(poly, r, b[..t], v + rest);
    FeedAppend(poly, s, u, rest);
    FeedAppend(poly, s, v, rest);
    FeedInjective(poly, Feed(poly, s, u), Feed(poly, s, v), rest);
    var pad := Zeros(16 - w);
    FeedAppend(poly, s, u, pad);
    FeedAppend(poly, s, v, pad);
    SixteenBitsInjective(poly, s, u + pad, v + pad);
    assert u == (u + pad)[..w] && v == (v + pad)[..w];
  }

  lemma {:induction false} MessageBitsInjective(a: seq<bv8>, b: seq<bv8>)
    requires |a| == |b| && MessageBits(a) == MessageBits(b)
    ensures a == b
    decreases |a|
  {
    hide Bits8;
    if |a| != 0 {
      assert MessageBits(a)[..8] == Bits8(a[0]) && MessageBits(a)[8..] == MessageBits(a[1..]);
      assert MessageBits(b)[..8] == Bits8(b[0]) && MessageBits(b)[8..] == MessageBits(b[1..]);
      Bits8Injective(a[0], b[0]);
      MessageBitsInjective(a[1..], b[1..]);
      assert a == [a[0]] + a[1..] && b == [b[0]] + b[1..];
    }
  }

  lemma Bits8Injective(x: bv8, y: bv8)
    requires Bits8(x) == Bits8(y)
    ensures x == y
  {
    assert Bits8(x)[0] == Bits8(y)[0] && Bits8(x)[1] == Bits8(y)[1];
    assert Bits8(x)[2] == Bits8(y)[2] && Bits8(x)[3] == Bits8(y)[3];
    assert Bits8(x)[4] == Bits8(y)[4] && Bits8(x)[5] == Bits8(y)[5];
    assert Bits8(x)[6] == Bits8(y)[6] && Bits8(x)[7] == Bits8(y)[7];
  }

  /** Two messages of one length that differ only inside sixteen consecutive bits never share a CRC. */
  lemma {:induction false} Crc1021SeesBursts(a: seq<bv8>, b: seq<bv8>, precrc: bv16, t: nat, w: nat)
    requires |a| == |b| && a != b
    requires w <= 16 && t + w <= 8 * |a|
    requires MessageBits(a)[..t] == MessageBits(b)[..t]
    requires MessageBits(a)[t + w..] == MessageBits(b)[t + w..]
    ensures Crc1021(a, precrc) != Crc1021(b, precrc)
  {
    hide Crc1021, Register, Feed, MessageBits;
    Crc1021IsRegister(a, precrc);
    Crc1021IsRegister(b, precrc);
    FeedMessage(0x1021, precrc, a);
    FeedMessage(0x1021, precrc, b);
    if Crc1021(a, precrc) == Crc1021(b, precrc) {
      BurstChangesRegister(0x1021, precrc, MessageBits(a), MessageBits(b), t, w);
      MessageBitsInjective(a, b);
      assert false;
    }
  }

  /** On the slave bus the bits of a byte are taken lowest first. */
  lemma Crc8005SeesBursts(a: seq<bv8>, b: seq<bv8>, precrc: bv16, t: nat, w: nat)
    requires |a| == |b| && a != b
    requires w <= 16 && t + w <= 8 * |a|
    requires MessageBits(ReverseEach(a))[..t] == MessageBits(ReverseEach(b))[..t]
    requires MessageBits(ReverseEach(a))[t + w..] == MessageBits(ReverseEach(b))[t + w..]
    ensures Crc8005(a, precrc) != Crc8005(b, precrc)
  {
    hide Crc8005, Register, Feed, MessageBits, Reverse16, Reverse;
    var a', b', init := ReverseEach(a), ReverseEach(b), Reverse16(precrc);
    Crc8005IsRegister(a, precrc);
    Crc8005IsRegister(b, precrc);
    FeedMessage(0x8005, init, a');
    FeedMessage(0x8005, init, b');
    if Crc8005(a, precrc) == Crc8005(b, precrc) {
      Reverse16Involution(Register(0x8005, init, a'));
      Reverse16Involution(Register(0x8005, init, b'));
      BurstChangesRegister(0x8005, init, MessageBits(a'), MessageBits(b'), t, w);
      MessageBitsInjective(a', b');
      ReverseEachInjective(a, b);
      assert false;
    }
  }

  lemma ReverseEachInjective(a: seq<bv8>, b: seq<bv8>)
    requires ReverseEach(a) == ReverseEach(b)
    ensures a == b
  {
    hide Reverse;
    assert |ReverseEach(a)| == |a| && |ReverseEach(b)| == |b|;
    forall i | 0 <= i < |a| ensures a[i] == b[i] {
      assert ReverseEach(a)[i] == ReverseEach(b)[i];
      ReverseInvolution(a[i]);
      ReverseInvolution(b[i]);
    }
  }

  lemma {:induction false} MessageBitsAppend(a: seq<bv8>, b: seq<bv8>)
    ensures MessageBits(a + b) == MessageBits(a) + MessageBits(b)
    decreases |a|
  {
    hide Bits8;
    if |a| == 0 {
      assert a + b == b;
    } else {
      assert (a + b)[1..] == a[1..] + b;
      MessageBitsAppend(a[1..], b);
    }
  }

  /** In particular, messages that differ only inside two adjacent bytes never share a CRC. */
  lemma Crc1021SeesAdjacentBytes(front: seq<bv8>, x: seq<bv8>, y: seq<bv8>, back: seq<bv8>, precrc: bv16)
    requires |x| == 2 && |y| == 2 && x != y
    ensures Crc1021(front + x + back, precrc) != Crc1021(front + y + back, precrc)
  {
    hide Crc1021, MessageBits;
    Differ(front, x, y, back);
    BitsAround(front, x, back);
    BitsAround(front, y, back);
    Crc1021SeesBursts(front + x + back, front + y + back, precrc, 8 * |front|, 16);
  }

  lemma Crc8005SeesAdjacentBytes(front: seq<bv8>, x: seq<bv8>, y: seq<bv8>, back: seq<bv8>, precrc: bv16)
    requires |x| == 2 && |y| == 2 && x != y
    ensures Crc8005(front + x + back, precrc) != Crc8005(front + y + back, precrc)
  {
    hide Crc8005, MessageBits, ReverseEach;
    Differ(front, x, y, back);
    ReverseEachParts(front, x, back);
    ReverseEachParts(front, y, back);
    BitsAround(ReverseEach(front), ReverseEach(x), ReverseEach(back));
    BitsAround(ReverseEach(front), ReverseEach(y), ReverseEach(back));
    Crc8005SeesBursts(front + x + back, front + y + back, precrc, 8 * |front|, 16);
  }

  lemma Differ(front: seq<bv8>, x: seq<bv8>, y: seq<bv8>, back: seq<bv8>)
    requires |x| == |y| && x != y
    ensures front + x + back != front + y + back
  {
    assert (front + x + back)[|front|..|front| + |x|] == x && (front + y + back)[|front|..|front| + |y|] == y;
  }

  lemma ReverseEachParts(front: seq<bv8>, x: seq<bv8>, back: seq<bv8>)
    ensures ReverseEach(front + x + back) == ReverseEach(front) + ReverseEach(x) + ReverseEach(back)
  {
    hide Reverse;
  }

  lemma {:induction false} BitsAround(front: seq<bv8>, x: seq<bv8>, back: seq<bv8>)
    requires |x| == 2
    ensures MessageBits(front + x + back)[..8 * |front|] == MessageBits(front)
    ensures MessageBits(front + x + back)[8 * |front| + 16..] == MessageBits(back)
  {
    MessageBitsAppend(front + x, back);
    MessageBitsAppend(front, x);
  }

  // ----- Odd numbers of errors -----

  /** Whether an odd number of bits is set. */
  function Odd(bits: Bits): bool
    decreases |bits|
  {
    |bits| > 0 && (bits[0] != Odd(bits[1..]))
  }

  lemma {:induction false} OddSum(d: Bits, w: Bits)
    requires |w| <= |d|
    ensures Odd(AddLeading(d, w)) == (Odd(d) != Odd(w))
    decreases |d|
  {
    if |w| == 0 {
      assert AddLeading(d, w) == d;
    } else {
      assert AddLeading(d, w)[1..] == AddLeading(d[1..], w[1..]);
      OddSum(d[1..], w[1..]);
    }
  }

  lemma {:induction false} OddPadded(bits: Bits, n: nat)
    ensures Odd(bits + Zeros(n)) == Odd(bits)
    decreases |bits| + n
  {
    var p := bits + Zeros(n);
    if |bits| > 0 {
      assert p[1..] == bits[1..] + Zeros(n);
      OddPadded(bits[1..], n);
    } else if n > 0 {
      assert p[1..] == bits + Zeros(n - 1);
      OddPadded(bits, n - 1);
    }
  }

  /** Division by a polynomial with an even number of terms keeps the parity of the dividend. */
  lemma {:induction false} RemainderKeepsParity(poly: bv16, d: Bits)
    requires Odd(Bits16(poly)) && |d| >= 16
    ensures Odd(Remainder(poly, d)) == Odd(d)
    decreases |d|
  {
    hide Bits16;
    if |d| > 16 {
      if d[0] {
        OddSum(d[1..], Bits16(poly));
        RemainderKeepsParity(poly, AddLeading(d[1..], Bits16(poly)));
      } else {
        RemainderKeepsParity(poly, d[1..]);
      }
    }
  }

  lemma {:induction false} OddAppend(a: Bits, b: Bits)
    ensures Odd(a + b) == (Odd(a) != Odd(b))
    decreases |a|
  {
    if |a| == 0 {
      assert a + b == b;
    } else {
      assert (a + b)[1..] == a[1..] + b;
      OddAppend(a[1..], b);
    }
  }

  lemma {:induction false} OddOfFour(q: Bits)
    requires |q| == 4
    ensures Odd(q) == (q[0] != (q[1] != (q[2] != q[3])))
  {
    assert q[1..][1..] == q[2..] && q[2..][1..] == q[3..] && q[3..][1..] == [];
    assert !Odd(q[3..][1..]);
    assert Odd(q[2..]) == (q[2] != Odd(q[3..]));
  }

  lemma {:induction false} OddOfSixteen(p: Bits)
    requires |p| == 16
    ensures Odd(p) == (Odd(p[..4]) != (Odd(p[4..8]) != (Odd(p[8..12]) != Odd(p[12..]))))
  {
    assert p == p[..4] + (p[4..8] + (p[8..12] + p[12..]));
    OddAppend(p[..4], p[4..8] + (p[8..12] + p[12..]));
    OddAppend(p[4..8], p[8..12] + p[12..]);
    OddAppend(p[8..12], p[12..]);
  }

  /** Both generator polynomials have four terms, so three besides x^16. */
  lemma OddDivisor1021()
    ensures Odd(Bits16(0x1021))
  {
    var p := Bits16(0x1021);
    OddOfSixteen(p);
    OddOfFour(p[..4]);
    OddOfFour(p[4..8]);
    OddOfFour(p[8..12]);
    OddOfFour(p[12..]);
  }

  lemma OddDivisor8005()
    ensures Odd(Bits16(0x8005))
  {
    var p := Bits16(0x8005);
    OddOfSixteen(p);
    OddOfFour(p[..4]);
    OddOfFour(p[4..8]);
    OddOfFour(p[8..12]);
    OddOfFour(p[12..]);
  }

  /** The CRC carries the parity of the message. */
  lemma {:induction false} Crc1021Parity(msg: seq<bv8>, precrc: bv16)
    ensures Odd(Bits16(Crc1021(msg, precrc))) == (Odd(MessageBits(msg)) != Odd(Bits16(precrc)))
  {
    hide Crc1021, Bits16, MessageBits, Remainder, Odd;
    var d := MessageBits(msg) + Zeros(16);
    Crc1021IsRemainder(msg, precrc);
    OddDivisor1021();
    RemainderKeepsParity(0x1021, AddLeading(d, Bits16(precrc)));
    OddSum(d, Bits16(precrc));
    OddPadded(MessageBits(msg), 16);
  }

  /** Flipping an odd number of bits changes the parity of the message, and so its CRC. */
  lemma {:induction false} Crc1021SeesOddErrors(msg: seq<bv8>, other: seq<bv8>, flips: Bits, precrc: bv16)
    requires |msg| == |other| && |flips| == 8 * |msg|
    requires MessageBits(other) == AddLeading(MessageBits(msg), flips)
    requires Odd(flips)
    ensures Crc1021(other, precrc) != Crc1021(msg, precrc)
  {
    hide Crc1021, Bits16, MessageBits, Odd;
    Crc1021Parity(msg, precrc);
    Crc1021Parity(other, precrc);
    OddSum(MessageBits(msg), flips);
  }

  // ----- The same on the slave bus -----

  lemma {:induction false} OddOfEight(p: Bits)
    requires |p| == 8
    ensures Odd(p) == ((p[0] != (p[1] != (p[2] != p[3]))) != (p[4] != (p[5] != (p[6] != p[7]))))
  {
    hide Odd;
    assert p == p[..4] + p[4..];
    OddAppend(p[..4], p[4..]);
    OddOfFour(p[..4]);
    OddOfFour(p[4..]);
  }

  lemma ReverseKeepsParity(b: bv8)
    ensures Odd(Bits8(Reverse(b))) == Odd(Bits8(b))
  {
    hide Odd, Reverse;
    ReverseIsBackwards(b);
    OddOfEight(Bits8(b));
    OddOfEight(Bits8(Reverse(b)));
  }

  lemma {:induction false} ReverseEachKeepsParity(msg: seq<bv8>)
    ensures Odd(MessageBits(ReverseEach(msg))) == Odd(MessageBits(msg))
    decreases |msg|
  {
    hide Odd, Reverse, Bits8;
    if msg != [] {
      assert ReverseEach(msg)[1..] == ReverseEach(msg[1..]);
      ReverseEachKeepsParity(msg[1..]);
      ReverseKeepsParity(msg[0]);
      OddAppend(Bits8(msg[0]), MessageBits(msg[1..]));
      OddAppend(Bits8(Reverse(msg[0])), MessageBits(ReverseEach(msg[1..])));
    }
  }

  /** The slave-bus checksum, read backwards, carries the parity of the message too. */
  lemma {:induction false} Crc8005Parity(msg: seq<bv8>, precrc: bv16)
    ensures Odd(Bits16(Reverse16(Crc8005(msg, precrc)))) == (Odd(MessageBits(msg)) != Odd(Bits16(Reverse16(precrc))))
  {
    hide Crc8005, Bits16, MessageBits, Remainder, Odd, ReverseEach, Reverse16;
    var d := MessageBits(ReverseEach(msg)) + Zeros(16);
    Crc8005IsRemainder(msg, precrc);
    OddDivisor8005();
    RemainderKeepsParity(0x8005, AddLeading(d, Bits16(Reverse16(precrc))));
    OddSum(d, Bits16(Reverse16(precrc)));
    OddPadded(MessageBits(ReverseEach(msg)), 16);
    ReverseEachKeepsParity(msg);
  }

  lemma {:induction false} Crc8005SeesOddErrors(msg: seq<bv8>, other: seq<bv8>, flips: Bits, precrc: bv16)
    requires |msg| == |other| && |flips| == 8 * |msg|
    requires MessageBits(other) == AddLeading(MessageBits(msg), flips)
    requires Odd(flips)
    ensures Crc8005(other, precrc) != Crc8005(msg, precrc)
  {
    hide Crc8005, Bits16, MessageBits, Odd, Reverse16;
    Crc8005Parity(msg, precrc);
    Crc8005Parity(other, precrc);
    OddSum(MessageBits(msg), flips);
  }
}
