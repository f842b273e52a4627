/** The 16-bit CRC register of src/module/Utils.cpp, one bit at a time: its algebra over GF(2).
    `Xor` and the other one-line functions keep bit-vector terms folded while lemmas are combined. */
module CrcRegister {
  import opened Words

  // ----- Register steps -----

  /** One shift of the 16-bit register: divide by x^16 + poly when a one falls out. */
  function BitStep(poly: bv16, r: bv16): bv16 {
    if Top(r) then Xor(Shl(r), poly) else Shl(r)
  }

  function Top(r: bv16): bool { r & 0x8000 != 0 }

  function Shl(r: bv16): bv16 { r << 1 }

  function NibbleShift(poly: bv16, r: bv16): bv16 {
    BitStep(poly, BitStep(poly, BitStep(poly, BitStep(poly, r))))
  }

  function ByteShift(poly: bv16, r: bv16): bv16 {
    NibbleShift(poly, NibbleShift(poly, r))
  }

  function Xor(a: bv16, b: bv16): bv16 { a ^ b }

  function High(b: bv8): bv16 { (b as bv16) << 8 }

  function Low(r: bv16): bv16 { r & 0x00FF }

  function Insert(r: bv16, b: bv8): bv16 { r ^ ((b as bv16) << 8) }

  /** One message byte through the shift register. */
  function ByteStep(poly: bv16, r: bv16, b: bv8): bv16 {
    ByteShift(poly, Insert(r, b))
  }

  function Register(poly: bv16, r: bv16, msg: seq<bv8>): bv16
    decreases |msg|
  {
    if |msg| == 0 then r else Register(poly, ByteStep(poly, r, msg[0]), msg[1..])
  }

  // ----- Linearity and injectivity -----

  lemma BitStepLinear(poly: bv16, a: bv16, b: bv16)
    ensures BitStep(poly, Xor(a, b)) == Xor(BitStep(poly, a), BitStep(poly, b))
  {
    hide Top, Shl, Xor;
    TopXor(a, b);
    ShlXor(a, b);
    CancelBoth(Shl(a), Shl(b), poly);
    CancelLeft(Shl(a), Shl(b), poly);
    CancelRight(Shl(a), Shl(b), poly);
  }

  lemma TopXor(a: bv16, b: bv16)
    ensures Top(Xor(a, b)) <==> Top(a) != Top(b)
  {}

  lemma ShlXor(a: bv16, b: bv16)
    ensures Shl(Xor(a, b)) == Xor(Shl(a), Shl(b))
  {}

  lemma CancelBoth(a: bv16, b: bv16, p: bv16)
    ensures Xor(Xor(a, p), Xor(b, p)) == Xor(a, b)
  {
    hide Xor;
    CancelRight(Xor(a, p), b, p);
    CancelLeft(a, b, p);
    XorTwice(Xor(a, b), p);
  }

  lemma XorTwice(a: bv16, p: bv16)
    ensures Xor(Xor(a, p), p) == a
  {}

  lemma CancelLeft(a: bv16, b: bv16, p: bv16)
    ensures Xor(Xor(a, p), b) == Xor(Xor(a, b), p)
  {}

  lemma CancelRight(a: bv16, b: bv16, p: bv16)
    ensures Xor(a, Xor(b, p)) == Xor(Xor(a, b), p)
  {}

  lemma NibbleShiftLinear(poly: bv16, a: bv16, b: bv16)
    ensures NibbleShift(poly, Xor(a, b)) == Xor(NibbleShift(poly, a), NibbleShift(poly, b))
  {
    hide BitStep, Xor;
    var a1, b1 := BitStep(poly, a), BitStep(poly, b);
    var a2, b2 := BitStep(poly, a1), BitStep(poly, b1);
    BitStepLinear(poly, a, b);
    BitStepLinear(poly, a1, b1);
    BitStepLinear(poly, a2, b2);
    BitStepLinear(poly, BitStep(poly, a2), BitStep(poly, b2));
  }

  lemma ByteShiftLinear(poly: bv16, a: bv16, b: bv16)
    ensures ByteShift(poly, Xor(a, b)) == Xor(ByteShift(poly, a), ByteShift(poly, b))
  {
    hide NibbleShift, Xor;
    NibbleShiftLinear(poly, a, b);
    NibbleShiftLinear(poly, NibbleShift(poly, a), NibbleShift(poly, b));
  }

  /** Nothing falls out of the register during a byte when its high byte is clear. */
  lemma ByteShiftLow(poly: bv16, r: bv16)
    ensures ByteShift(poly, Low(r)) == r << 8
  {
    hide NibbleShift, Low;
    NibbleShiftLow(poly, r);
    NibbleShiftMiddle(poly, r);
  }

  lemma NibbleShiftLow(poly: bv16, r: bv16)
    ensures NibbleShift(poly, Low(r)) == Low(r) << 4
  {}

  lemma NibbleShiftMiddle(poly: bv16, r: bv16)
    ensures NibbleShift(poly, Low(r) << 4) == r << 8
  {}

  lemma BitStepInjective(poly: bv16, a: bv16, b: bv16)
    requires poly & 1 == 1 && BitStep(poly, a) == BitStep(poly, b)
    ensures a == b
  {
    hide BitStep, Xor;
    BitStepLinear(poly, a, b);
    XorZero(BitStep(poly, a), BitStep(poly, b));
    BitStepKernel(poly, Xor(a, b));
    XorZero(a, b);
  }

  lemma XorZero(a: bv16, b: bv16)
    ensures Xor(a, b) == 0 <==> a == b
  {
    hide Xor;
    XorUnits(b);
    XorTwice(a, b);
  }

  lemma XorUnits(b: bv16)
    ensures Xor(b, b) == 0 && Xor(0, b) == b
  {}

  lemma BitStepKernel(poly: bv16, r: bv16)
    requires poly & 1 == 1
    ensures BitStep(poly, r) == 0 ==> r == 0
  {}

  lemma ByteShiftInjective(poly: bv16, a: bv16, b: bv16)
    requires poly & 1 == 1 && ByteShift(poly, a) == ByteShift(poly, b)
    ensures a == b
  {
    NibbleShiftInjective(poly, NibbleShift(poly, a), NibbleShift(poly, b));
    NibbleShiftInjective(poly, a, b);
  }

  lemma NibbleShiftInjective(poly: bv16, a: bv16, b: bv16)
    requires poly & 1 == 1 && NibbleShift(poly, a) == NibbleShift(poly, b)
    ensures a == b
  {
    hide BitStep;
    var a1, b1 := BitStep(poly, a), BitStep(poly, b);
    var a2, b2 := BitStep(poly, a1), BitStep(poly, b1);
    BitStepInjective(poly, BitStep(poly, a2), BitStep(poly, b2));
    BitStepInjective(poly, a2, b2);
    BitStepInjective(poly, a1, b1);
    BitStepInjective(poly, a, b);
  }

  /** A byte step is injective in the register: an error once in the register stays there. */
  lemma ByteStepInjective(poly: bv16, r: bv16, s: bv16, b: bv8)
    requires poly & 1 == 1 && ByteStep(poly, r, b) == ByteStep(poly, s, b)
    ensures r == s
  {
    hide ByteShift, Insert;
    ByteShiftInjective(poly, Insert(r, b), Insert(s, b));
    InsertCancels(r, s, b);
  }

  lemma InsertCancels(r: bv16, s: bv16, b: bv8)
    ensures Insert(r, b) == Insert(s, b) ==> r == s
  {}

  lemma {:induction false} RegisterInjective(poly: bv16, r: bv16, s: bv16, msg: seq<bv8>)
    requires poly & 1 == 1 && Register(poly, r, msg) == Register(poly, s, msg)
    ensures r == s
    decreases |msg|
  {
    hide ByteStep;
    if msg != [] {
      RegisterInjective(poly, ByteStep(poly, r, msg[0]), ByteStep(poly, s, msg[0]), msg[1..]);
      ByteStepInjective(poly, r, s, msg[0]);
    }
  }

  /** Two bytes are one 16-bit word fed into the top of the register. */
  lemma TwoByteSteps(poly: bv16, r: bv16, x: bv8, y: bv8)
    ensures ByteStep(poly, ByteStep(poly, r, x), y)
         == ByteShift(poly, ByteShift(poly, Xor(r, Word(x, y))))
  {
    hide Xor, ByteShift, Insert, Low, Word;
    WordSplit(r, x, y);
    ByteShiftLinear(poly, Insert(r, x), Low(y as bv16));
    ByteShiftLow(poly, y as bv16);
    LowByteInserted(ByteShift(poly, Insert(r, x)), y);
  }

  lemma LowByteInserted(r: bv16, y: bv8)
    ensures Xor(r, (y as bv16) << 8) == Insert(r, y)
  {}

  lemma WordSplit(r: bv16, x: bv8, y: bv8)
    ensures Xor(r, Word(x, y)) == Xor(Insert(r, x), Low(y as bv16))
  {
    assert Low(y as bv16) == y as bv16;
    Reassociate(r, (x as bv16) << 8, y as bv16);
  }

  lemma Reassociate(a: bv16, b: bv16, c: bv16)
    ensures a ^ (b ^ c) == (a ^ b) ^ c
  {}

  lemma {:induction false} RegisterAppend(poly: bv16, r: bv16, a: seq<bv8>, b: seq<bv8>)
    ensures Register(poly, r, a + b) == Register(poly, Register(poly, r, a), b)
    decreases |a|
  {
    hide ByteStep;
    if |a| == 0 {
      assert a + b == b;
    } else {
      assert (a + b)[1..] == a[1..] + b;
      RegisterAppend(poly, ByteStep(poly, r, a[0]), a[1..], b);
    }
  }

  lemma {:induction false} RegisterTwo(poly: bv16, r: bv16, x: bv8, y: bv8)
    ensures Register(poly, r, [x, y]) == ByteShift(poly, ByteShift(poly, Xor(r, Word(x, y))))
  {
    hide Xor, ByteStep, ByteShift, Word;
    assert [x, y][1..] == [y];
    assert Register(poly, ByteStep(poly, r, x), [y]) == ByteStep(poly, ByteStep(poly, r, x), y);
    TwoByteSteps(poly, r, x, y);
  }

  /** Two more bytes clear the register exactly when they spell its contents. */
  lemma {:induction false} TwoBytesClear(poly: bv16, r: bv16, x: bv8, y: bv8)
    requires poly & 1 == 1
    ensures Register(poly, r, [x, y]) == 0 <==> Word(x, y) == r
  {
    hide Xor, ByteShift, Word;
    var d := Xor(r, Word(x, y));
    RegisterTwo(poly, r, x, y);
    ZeroStaysZero(poly);
    if ByteShift(poly, ByteShift(poly, d)) == 0 {
      ByteShiftInjective(poly, ByteShift(poly, d), 0);
      ByteShiftInjective(poly, d, 0);
    }
    XorZero(r, Word(x, y));
  }

  lemma ZeroStaysZero(poly: bv16)
    ensures ByteShift(poly, 0) == 0
  {}
}
