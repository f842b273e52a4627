/** Hexadecimal text of src/module/Utils.cpp (`Cnvt`): every packet on either wire carries its bytes as pairs of
    ASCII digits. */
module Hex {
  import opened Words
  import opened Wrappers

  // ----- One byte -----

  function Digit(n: bv8): bv8 {
    if n & 0x0F < 10 then 0x30 + (n & 0x0F) else 0x37 + (n & 0x0F)
  }

  function DigitValue(c: bv8): Option<bv8> {
    if 0x30 <= c <= 0x39 then Some(c - 0x30)
    else if 0x41 <= c <= 0x46 then Some(c - 0x41 + 0x0A)
    else if 0x61 <= c <= 0x66 then Some(c - 0x61 + 0x0A)
    else None
  }

  /** The C library's isxdigit. */
  predicate IsDigit(c: bv8) {
    DigitValue(c).Some?
  }

  function ParsePair(hi: bv8, lo: bv8): Option<bv8> {
    match (DigitValue(hi), DigitValue(lo))
    case (Some(h), Some(l)) => Some((h << 4) | l)
    case (_, _) => None
  }

  function HighDigit(b: bv8): bv8 { Digit(b >> 4) }

  function LowDigit(b: bv8): bv8 { Digit(b) }

  function Pair(b: bv8): (asc: seq<bv8>)
    ensures |asc| == 2
  {
    [HighDigit(b), LowDigit(b)]
  }

  lemma PairParses(b: bv8)
    ensures ParsePair(HighDigit(b), LowDigit(b)) == Some(b)
  {}

  lemma DigitIsDigit(n: bv8)
    ensures IsDigit(Digit(n)) && 0x30 <= Digit(n) <= 0x46
  {}

  /** The upper-case spelling of a digit. */
  function Upper(c: bv8): bv8 {
    if 0x61 <= c <= 0x66 then c - 0x20 else c
  }

  lemma ParsedPairPrints(hi: bv8, lo: bv8)
    requires ParsePair(hi, lo).Some?
    ensures HighDigit(ParsePair(hi, lo).value) == Upper(hi)
    ensures LowDigit(ParsePair(hi, lo).value) == Upper(lo)
  {}

  // ----- The digits as they are written -----

  const UPPER := "0123456789ABCDEF"
  const LOWER := "0123456789abcdef"

  function UpperDigit(v: nat): int
    requires v < 16
  {
    UPPER[v] as int
  }

  /** Character `c` is the digit of value v, in either case. */
  predicate Spells(c: bv8, v: nat) {
    v < 16 && (c as int == UPPER[v] as int || c as int == LOWER[v] as int)
  }

  lemma UpperAt(v: nat)
    requires v < 16
    ensures UpperDigit(v) == if v < 10 then 48 + v else 55 + v
  {}

  lemma LowerAt(v: nat)
    requires v < 16
    ensures LOWER[v] as int == if v < 10 then 48 + v else 87 + v
  {}

  lemma DigitSpelled(n: bv8)
    ensures Digit(n) as int == UpperDigit(n as int % 16)
  {
    UpperAt(n as int % 16);
    DigitAsNumber(n);
  }

  lemma DigitAsNumber(n: bv8)
    ensures Digit(n) as int == if n as int % 16 < 10 then 48 + n as int % 16 else 55 + n as int % 16
  {
    assert (n & 0x0F) as int == n as int % 16;
  }

  lemma ValueSpelled(c: bv8, v: nat)
    requires v < 16
    ensures DigitValue(c) == Some(v as bv8) <==> Spells(c, v)
  {
    UpperAt(v);
    LowerAt(v);
    ValueAsNumber(c, v);
  }

  lemma ValueAsNumber(c: bv8, v: nat)
    requires v < 16
    ensures DigitValue(c) == Some(v as bv8) <==>
            c as int == (if v < 10 then 48 + v else 55 + v) || c as int == (if v < 10 then 48 + v else 87 + v)
  {}

  /** No hexadecimal digit: neither 0 to 9 nor A to F nor a to f. */
  predicate NoDigit(c: bv8) {
    var n := c as int;
    n < 48 || 57 < n < 65 || 70 < n < 97 || 102 < n
  }

  lemma DigitOrNot(c: bv8)
    ensures DigitValue(c).None? <==> NoDigit(c)
  {}

  /** A pair of digits is a numeral to the base 16, the first digit the higher one. */
  lemma PairSpelled(hi: bv8, lo: bv8, b: bv8)
    ensures ParsePair(hi, lo) == Some(b) <==> Spells(hi, b as int / 16) && Spells(lo, b as int % 16)
  {
    hide DigitValue, Spells;
    HalvesAsNumbers(b);
    ValueSpelled(hi, b as int / 16);
    ValueSpelled(lo, b as int % 16);
    ValueIsSmall(hi);
    ValueIsSmall(lo);
    PairOfHalves(hi, lo, b);
  }

  lemma HalvesAsNumbers(b: bv8)
    ensures (b >> 4) as int == b as int / 16 && (b & 0x0F) as int == b as int % 16
    ensures b >> 4 == (b as int / 16) as bv8 && b & 0x0F == (b as int % 16) as bv8
  {}

  lemma ValueIsSmall(c: bv8)
    ensures DigitValue(c).Some? ==> DigitValue(c).value < 16
  {}

  lemma PairOfHalves(hi: bv8, lo: bv8, b: bv8)
    requires DigitValue(hi).Some? ==> DigitValue(hi).value < 16
    requires DigitValue(lo).Some? ==> DigitValue(lo).value < 16
    ensures ParsePair(hi, lo) == Some(b) <==> DigitValue(hi) == Some(b >> 4) && DigitValue(lo) == Some(b & 0x0F)
  {
    hide DigitValue;
    if DigitValue(hi).Some? && DigitValue(lo).Some? {
      Nibbles(DigitValue(hi).value, DigitValue(lo).value, b);
    }
  }

  lemma Nibbles(h: bv8, l: bv8, b: bv8)
    requires h < 16 && l < 16
    ensures (h << 4) | l == b <==> h == b >> 4 && l == b & 0x0F
  {}

  /** A byte is printed with its high digit first, in upper case. */
  lemma BytePrinted(b: bv8)
    ensures Pair(b)[0] as int == UpperDigit(b as int / 16) && Pair(b)[1] as int == UpperDigit(b as int % 16)
  {
    hide Digit;
    HalvesAsNumbers(b);
    DigitSpelled(b >> 4);
    DigitSpelled(b);
  }

  // ----- Byte strings -----

  function Encode(bytes: seq<bv8>): (asc: seq<bv8>)
    ensures |asc| == 2 * |bytes|
    decreases |bytes|
  {
    if |bytes| == 0 then [] else Pair(bytes[0]) + Encode(bytes[1..])
  }

  function Decode(asc: seq<bv8>): (r: Option<seq<bv8>>)
    requires |asc| % 2 == 0
    ensures r.Some? ==> 2 * |r.value| == |asc|
    decreases |asc|
  {
    if |asc| == 0 then Some([])
    else
      match (ParsePair(asc[0], asc[1]), Decode(asc[2..]))
      case (Some(b), Some(rest)) => Some([b] + rest)
      case (_, _) => None
  }

  function AllUpper(asc: seq<bv8>): (r: seq<bv8>)
    ensures |r| == |asc|
  {
    seq(|asc|, i requires 0 <= i < |asc| => Upper(asc[i]))
  }

  /** Printing and parsing back gives the bytes. */
  lemma {:induction false} EncodeThenDecode(bytes: seq<bv8>)
    ensures Decode(Encode(bytes)) == Some(bytes)
    decreases |bytes|
  {
    hide HighDigit, LowDigit, ParsePair;
    if |bytes| != 0 {
      var asc := Encode(bytes);
      assert asc[2..] == Encode(bytes[1..]);
      assert asc[0] == HighDigit(bytes[0]) && asc[1] == LowDigit(bytes[0]);
      PairParses(bytes[0]);
      EncodeThenDecode(bytes[1..]);
      assert bytes == [bytes[0]] + bytes[1..];
    }
  }

  /** Parsing and printing again gives the text in upper case, so two texts stand for the same bytes only if they
      are the same up to case. */
  lemma {:induction false} DecodeThenEncode(asc: seq<bv8>)
    requires |asc| % 2 == 0 && Decode(asc).Some?
    ensures Encode(Decode(asc).value) == AllUpper(asc)
    decreases |asc|
  {
    hide HighDigit, LowDigit, ParsePair, Upper;
    if |asc| != 0 {
      DecodeThenEncode(asc[2..]);
      ParsedPairPrints(asc[0], asc[1]);
      var bytes := Decode(asc).value;
      assert bytes[1..] == Decode(asc[2..]).value;
      assert AllUpper(asc) == [Upper(asc[0]), Upper(asc[1])] + AllUpper(asc[2..]);
    }
  }

  ghost predicate AllDigits(asc: seq<bv8>) {
    forall c :: c in asc ==> IsDigit(c)
  }

  /** Parsing succeeds exactly on digits. */
  lemma {:induction false} DecodesDigits(asc: seq<bv8>)
    requires |asc| % 2 == 0
    ensures Decode(asc).Some? <==> AllDigits(asc)
    decreases |asc|
  {
    if |asc| != 0 {
      var rest := asc[2..];
      DecodesDigits(rest);
      assert asc == [asc[0], asc[1]] + rest;
      assert AllDigits(asc) <==> IsDigit(asc[0]) && IsDigit(asc[1]) && AllDigits(rest);
      assert ParsePair(asc[0], asc[1]).Some? <==> IsDigit(asc[0]) && IsDigit(asc[1]);
    }
  }

  lemma {:induction false} EncodeIsDigits(bytes: seq<bv8>)
    ensures AllDigits(Encode(bytes))
    ensures forall c :: c in Encode(bytes) ==> 0x30 <= c <= 0x46
    decreases |bytes|
  {
    hide Digit, IsDigit;
    if |bytes| != 0 {
      DigitIsDigit(bytes[0] >> 4);
      DigitIsDigit(bytes[0]);
      EncodeIsDigits(bytes[1..]);
    }
  }

  /** What stands where in the text of a byte string. */
  lemma {:induction false} TextAt(bytes: seq<bv8>, k: nat)
    requires k < |bytes|
    ensures Encode(bytes)[2 * k] as int == UpperDigit(bytes[k] as int / 16)
    ensures Encode(bytes)[2 * k + 1] as int == UpperDigit(bytes[k] as int % 16)
    decreases k
  {
    hide Pair;
    if k == 0 {
      BytePrinted(bytes[0]);
    } else {
      TextAt(bytes[1..], k - 1);
    }
  }

  /** Whether `asc` spells the bytes in either case, two digits a byte. */
  ghost predicate SpellsAll(asc: seq<bv8>, bytes: seq<bv8>) {
    |asc| == 2 * |bytes|
    && forall k :: 0 <= k < |bytes| ==>
         Spells(asc[2 * k], bytes[k] as int / 16) && Spells(asc[2 * k + 1], bytes[k] as int % 16)
  }

  /** A text stands for exactly the bytes that it spells. */
  lemma {:induction false} TextRead(asc: seq<bv8>, bytes: seq<bv8>)
    requires |asc| % 2 == 0
    ensures Decode(asc) == Some(bytes) <==> SpellsAll(asc, bytes)
    decreases |asc|
  {
    hide ParsePair, Spells, Decode, SpellsAll;
    if Decode(asc) == Some(bytes) {
      DecodedLength(asc, bytes);
    }
    if |asc| != 2 * |bytes| {
      assert !SpellsAll(asc, bytes) by { LengthsDiffer(asc, bytes); }
    } else if asc == [] {
      DecodesNothing();
      LengthsDiffer(asc, bytes);
      assert bytes == [];
    } else {
      TextRead(asc[2..], bytes[1..]);
      PairSpelled(asc[0], asc[1], bytes[0]);
      DecodeFirst(asc, bytes);
      SpellsRest(asc, bytes);
    }
  }

  lemma LengthsDiffer(asc: seq<bv8>, bytes: seq<bv8>)
    ensures |asc| != 2 * |bytes| ==> !SpellsAll(asc, bytes)
    ensures asc == [] && bytes == [] ==> SpellsAll(asc, bytes)
  {
    hide Spells;
  }

  lemma {:induction false} DecodedLength(asc: seq<bv8>, bytes: seq<bv8>)
    requires |asc| % 2 == 0 && Decode(asc) == Some(bytes)
    ensures |asc| == 2 * |bytes|
  {
    hide Decode;
  }

  lemma {:induction false} DecodeFirst(asc: seq<bv8>, bytes: seq<bv8>)
    requires |asc| == 2 * |bytes| > 0
    ensures Decode(asc) == Some(bytes) <==>
            ParsePair(asc[0], asc[1]) == Some(bytes[0]) && Decode(asc[2..]) == Some(bytes[1..])
  {
    hide ParsePair;
    assert bytes == [bytes[0]] + bytes[1..];
    if Decode(asc) == Some(bytes) {
      assert ([ParsePair(asc[0], asc[1]).value] + Decode(asc[2..]).value)[1..] == Decode(asc[2..]).value;
    }
  }

  lemma SpellsRest(asc: seq<bv8>, bytes: seq<bv8>)
    requires |asc| == 2 * |bytes| > 0
    ensures SpellsAll(asc, bytes) <==> SpellsAll(asc[2..], bytes[1..])
                                       && Spells(asc[0], bytes[0] as int / 16) && Spells(asc[1], bytes[0] as int % 16)
  {
    hide Spells;
    var rest, more := asc[2..], bytes[1..];
    if SpellsAll(asc, bytes) {
      forall k | 0 <= k < |more|
        ensures Spells(rest[2 * k], more[k] as int / 16) && Spells(rest[2 * k + 1], more[k] as int % 16)
      {
        assert Spells(asc[2 * (k + 1)], bytes[k + 1] as int / 16)
               && Spells(asc[2 * (k + 1) + 1], bytes[k + 1] as int % 16);
      }
    }
    if SpellsAll(rest, more) && Spells(asc[0], bytes[0] as int / 16) && Spells(asc[1], bytes[0] as int % 16) {
      forall k | 0 <= k < |bytes|
        ensures Spells(asc[2 * k], bytes[k] as int / 16) && Spells(asc[2 * k + 1], bytes[k] as int % 16)
      {
        if k > 0 {
          assert Spells(rest[2 * (k - 1)], more[k - 1] as int / 16)
                 && Spells(rest[2 * (k - 1) + 1], more[k - 1] as int % 16);
        }
      }
    }
  }

  // ----- Sixteen-bit numbers -----

  /** `ParseU16ToAsc`: the high byte first. */
  function Encode16(v: bv16): (asc: seq<bv8>)
    ensures |asc| == 4
  {
    Pair(HighByte(v)) + Pair(LowByte(v))
  }

  function Parse16(asc: seq<bv8>): Option<bv16>
    requires |asc| == 4
  {
    match (ParsePair(asc[0], asc[1]), ParsePair(asc[2], asc[3]))
    case (Some(hi), Some(lo)) => Some(Word(hi, lo))
    case (_, _) => None
  }

  lemma Encode16Parses(v: bv16)
    ensures Parse16(Encode16(v)) == Some(v)
  {
    hide HighDigit, LowDigit, ParsePair, HighByte, LowByte, Word;
    PairParses(HighByte(v));
    PairParses(LowByte(v));
    WordOfBytes(v);
  }

  /** The four digits of a number, the highest first. */
  lemma NumberPrinted(v: bv16)
    ensures var n := v as int;
            && Encode16(v)[0] as int == UpperDigit(n / 4096)
            && Encode16(v)[1] as int == UpperDigit(n / 256 % 16)
            && Encode16(v)[2] as int == UpperDigit(n / 16 % 16)
            && Encode16(v)[3] as int == UpperDigit(n % 16)
  {
    hide Pair, HighByte, LowByte, UpperDigit, Encode16;
    BytePrinted(HighByte(v));
    BytePrinted(LowByte(v));
    BothPrinted(v);
    WordAsNumber(v);
    SameDigits(v as int, HighByte(v) as int, LowByte(v) as int);
  }

  lemma SameDigits(n: nat, hi: nat, lo: nat)
    requires n == 256 * hi + lo && hi < 256 && lo < 256
    ensures UpperDigit(n / 4096) == UpperDigit(hi / 16) && UpperDigit(n / 256 % 16) == UpperDigit(hi % 16)
    ensures UpperDigit(n / 16 % 16) == UpperDigit(lo / 16) && UpperDigit(n % 16) == UpperDigit(lo % 16)
  {
    hide UpperDigit;
    Digits(hi, lo);
  }

  lemma BothPrinted(v: bv16)
    ensures Encode16(v)[0] == Pair(HighByte(v))[0] && Encode16(v)[1] == Pair(HighByte(v))[1]
    ensures Encode16(v)[2] == Pair(LowByte(v))[0] && Encode16(v)[3] == Pair(LowByte(v))[1]
  {
    hide Pair, HighByte, LowByte;
  }

  lemma Digits(hi: nat, lo: nat)
    requires hi < 256 && lo < 256
    ensures var n := 256 * hi + lo;
            n / 4096 == hi / 16 && n / 256 % 16 == hi % 16 && n / 16 % 16 == lo / 16 && n % 16 == lo % 16
  {
    var a, b, c, d := hi / 16, hi % 16, lo / 16, lo % 16;
    var n := 256 * hi + lo;
    Quotient4096(n, a, 256 * b + 16 * c + d);
    Quotient256(n, hi, lo);
    Sixteenth(n, 16 * hi + c, d);
    Sixteenth(16 * hi + c, hi, c);
  }

  lemma Quotient4096(n: nat, q: nat, r: nat)
    requires n == 4096 * q + r && r < 4096
    ensures n / 4096 == q
  {}

  lemma Quotient256(n: nat, q: nat, r: nat)
    requires n == 256 * q + r && r < 256
    ensures n / 256 == q
  {}

  lemma Sixteenth(n: nat, q: nat, r: nat)
    requires n == 16 * q + r && r < 16
    ensures n / 16 == q && n % 16 == r
  {}

  /** Four digits stand for exactly the number that they spell. */
  lemma NumberRead(asc: seq<bv8>, v: bv16)
    requires |asc| == 4
    ensures Parse16(asc) == Some(v) <==> var n := v as int;
              Spells(asc[0], n / 4096) && Spells(asc[1], n / 256 % 16) && Spells(asc[2], n / 16 % 16)
              && Spells(asc[3], n % 16)
  {
    hide ParsePair, Spells, HighByte, LowByte, Word;
    var hi, lo := HighByte(v), LowByte(v);
    PairSpelled(asc[0], asc[1], hi);
    PairSpelled(asc[2], asc[3], lo);
    BothPairs(asc, v);
    WordAsNumber(v);
    SameNumeral(asc, v as int, hi as int, lo as int);
  }

  lemma SameNumeral(asc: seq<bv8>, n: nat, hi: nat, lo: nat)
    requires |asc| == 4 && n == 256 * hi + lo && hi < 256 && lo < 256
    ensures Spells(asc[0], n / 4096) == Spells(asc[0], hi / 16) && Spells(asc[1], n / 256 % 16) == Spells(asc[1], hi % 16)
    ensures Spells(asc[2], n / 16 % 16) == Spells(asc[2], lo / 16) && Spells(asc[3], n % 16) == Spells(asc[3], lo % 16)
  {
    hide Spells;
    Digits(hi, lo);
  }

  lemma NumberUnread(asc: seq<bv8>)
    requires |asc| == 4
    ensures Parse16(asc).None? <==> NoDigit(asc[0]) || NoDigit(asc[1]) || NoDigit(asc[2]) || NoDigit(asc[3])
  {
    hide DigitValue, NoDigit;
    DigitOrNot(asc[0]);
    DigitOrNot(asc[1]);
    DigitOrNot(asc[2]);
    DigitOrNot(asc[3]);
  }

  lemma BothPairs(asc: seq<bv8>, v: bv16)
    requires |asc| == 4
    ensures Parse16(asc) == Some(v) <==>
            ParsePair(asc[0], asc[1]) == Some(HighByte(v)) && ParsePair(asc[2], asc[3]) == Some(LowByte(v))
  {
    hide ParsePair, HighByte, LowByte, Word;
    WordOfBytes(v);
    if Parse16(asc) == Some(v) {
      BytesOfWord(ParsePair(asc[0], asc[1]).value, ParsePair(asc[2], asc[3]).value);
    }
  }

  lemma Encode16IsDigits(v: bv16)
    ensures forall c :: c in Encode16(v) ==> IsDigit(c) && 0x30 <= c <= 0x46
  {
    hide Digit, IsDigit, HighByte, LowByte;
    DigitIsDigit(HighByte(v) >> 4);
    DigitIsDigit(HighByte(v));
    DigitIsDigit(LowByte(v) >> 4);
    DigitIsDigit(LowByte(v));
  }

  // ----- Text inside a packet -----

  /** Two digits of a byte as they are printed, at a position of a text. */
  predicate PrintedAt(w: seq<bv8>, at: nat, b: bv8)
    requires at + 2 <= |w|
  {
    w[at] as int == UpperDigit(b as int / 16) && w[at + 1] as int == UpperDigit(b as int % 16)
  }

  /** Two digits of a byte as they are read, in either case. */
  predicate SpelledAt(w: seq<bv8>, at: nat, b: bv8)
    requires at + 2 <= |w|
  {
    Spells(w[at], b as int / 16) && Spells(w[at + 1], b as int % 16)
  }

  /** Four digits of a number as they are printed, and as they are read. */
  predicate NumberPrintedAt(w: seq<bv8>, at: nat, v: bv16)
    requires at + 4 <= |w|
  {
    var n := v as int;
    && w[at] as int == UpperDigit(n / 4096) && w[at + 1] as int == UpperDigit(n / 256 % 16)
    && w[at + 2] as int == UpperDigit(n / 16 % 16) && w[at + 3] as int == UpperDigit(n % 16)
  }

  predicate NumberSpelledAt(w: seq<bv8>, at: nat, v: bv16)
    requires at + 4 <= |w|
  {
    var n := v as int;
    && Spells(w[at], n / 4096) && Spells(w[at + 1], n / 256 % 16)
    && Spells(w[at + 2], n / 16 % 16) && Spells(w[at + 3], n % 16)
  }

  predicate NoNumberAt(w: seq<bv8>, at: nat)
    requires at + 4 <= |w|
  {
    NoDigit(w[at]) || NoDigit(w[at + 1]) || NoDigit(w[at + 2]) || NoDigit(w[at + 3])
  }

  // ----- The loops of the source -----

  /** The digits of `ParseToAsc`. */
  const ASC: seq<bv8> := [0x30, 0x31, 0x32, 0x33, 0x34, 0x35, 0x36, 0x37, 0x38, 0x39, 0x41, 0x42, 0x43, 0x44, 0x45, 0x46]

  lemma TableIsRight(n: bv8)
    requires n < 16
    ensures ASC[n] == Digit(n)
  {
    UpperAt(n as int);
    DigitAsNumber(n);
    TableAt(n as int);
  }

  lemma TableAt(v: nat)
    requires v < 16
    ensures ASC[v] as int == if v < 10 then 48 + v else 55 + v
  {}

  /** `ParseToAsc` of one byte. */
  method ByteToAsc(h: bv8, dst: array<bv8>, p: nat)
    requires p + 2 <= dst.Length
    modifies dst
    ensures dst[p] == Pair(h)[0] && dst[p + 1] == Pair(h)[1]
    ensures forall k :: 0 <= k < dst.Length && !(p <= k < p + 2) ==> dst[k] == old(dst[k])
  {
    PrintsPair(h);
    dst[p] := ASC[h >> 4];
    dst[p + 1] := ASC[h & 0x0F];
  }

  /** `ParseToAsc` of a buffer: `dst` receives the digits from position `at` on. */
  method ParseToAsc(src: seq<bv8>, dst: array<bv8>, at: nat)
    requires at + 2 * |src| <= dst.Length
    modifies dst
    ensures dst[at..at + 2 * |src|] == Encode(src)
    ensures forall k :: 0 <= k < |src| ==> dst[at + 2 * k] as int == UpperDigit(src[k] as int / 16)
                                           && dst[at + 2 * k + 1] as int == UpperDigit(src[k] as int % 16)
    ensures dst[..at] == old(dst[..at])
    ensures dst[at + 2 * |src|..] == old(dst[at + 2 * |src|..])
  {
    hide Digit, Encode, UpperDigit, Pair;
    var p := at;
    assert src[..0] == [];
    EncodeNothing();
    for i := 0 to |src|
      invariant p == at + 2 * i
      invariant dst[at..p] == Encode(src[..i])
      invariant dst[..at] == old(dst[..at])
      invariant forall k :: p <= k < dst.Length ==> dst[k] == old(dst[k])
    {
      ghost var done := dst[at..p];
      ByteToAsc(src[i], dst, p);
      assert dst[at..p] == done && [dst[p], dst[p + 1]] == Pair(src[i]);
      assert dst[at..p + 2] == done + [dst[p], dst[p + 1]];
      EncodeSnoc(src[..i], src[i]);
      assert src[..i + 1] == src[..i] + [src[i]];
      p := p + 2;
    }
    assert src[..|src|] == src;
    TextPlaced(dst[..], at, src);
  }

  lemma {:induction false} TextPlaced(text: seq<bv8>, at: nat, src: seq<bv8>)
    requires at + 2 * |src| <= |text| && text[at..at + 2 * |src|] == Encode(src)
    ensures forall k :: 0 <= k < |src| ==> text[at + 2 * k] as int == UpperDigit(src[k] as int / 16)
                                           && text[at + 2 * k + 1] as int == UpperDigit(src[k] as int % 16)
  {
    hide Encode, UpperDigit;
    forall k | 0 <= k < |src|
      ensures text[at + 2 * k] as int == UpperDigit(src[k] as int / 16)
              && text[at + 2 * k + 1] as int == UpperDigit(src[k] as int % 16)
    {
      TextAt(src, k);
      assert text[at..at + 2 * |src|][2 * k] == text[at + 2 * k];
      assert text[at..at + 2 * |src|][2 * k + 1] == text[at + 2 * k + 1];
    }
  }

  lemma PrintsPair(h: bv8)
    ensures h >> 4 < 16 && h & 0x0F < 16
    ensures ASC[h >> 4] == Pair(h)[0] && ASC[h & 0x0F] == Pair(h)[1]
  {
    TableIsRight(h >> 4);
    TableIsRight(h & 0x0F);
  }

  lemma EncodeNothing()
    ensures Encode([]) == []
  {}

  lemma {:induction false} EncodeSnoc(a: seq<bv8>, b: bv8)
    ensures Encode(a + [b]) == Encode(a) + Pair(b)
    decreases |a|
  {
    hide HighDigit, LowDigit;
    if |a| == 0 {
      assert a + [b] == [b] && [b][1..] == [];
    } else {
      assert (a + [b])[1..] == a[1..] + [b];
      EncodeSnoc(a[1..], b);
    }
  }

  /** `ParseToU8` of two characters: -1 where one of them is no digit. */
  method ParseToU8(p: seq<bv8>) returns (k: int)
    requires |p| == 2
    ensures -1 <= k < 256
    ensures k == -1 <==> ParsePair(p[0], p[1]).None?
    ensures k >= 0 ==> ParsePair(p[0], p[1]) == Some(k as bv8) && Spells(p[0], k / 16) && Spells(p[1], k % 16)
  {
    hide Spells, ParsePair;
    k := 0;
    for i := 0 to 2
      invariant 0 <= k && (i == 0 ==> k == 0)
      invariant i == 1 ==> k < 16 && Spells(p[0], k)
      invariant i == 2 ==> k < 256 && Spells(p[0], k / 16) && Spells(p[1], k % 16)
    {
      var c := p[i] as int;
      var j;
      if 48 <= c <= 57 {
        j := c - 48;
      } else if 65 <= c <= 70 {
        j := c - 65 + 10;
      } else if 97 <= c <= 102 {
        j := c - 97 + 10;
      } else {
        assert ParsePair(p[0], p[1]).None? by { NoPair(p[0], p[1]); }
        return -1;
      }
      NumberSpelled(p[i], j);
      Shifted(k, j);
      k := k * 16 + j;
    }
    SpelledParses(p[0], p[1], k);
  }

  lemma Shifted(k: nat, j: nat)
    requires j < 16
    ensures (k * 16 + j) / 16 == k && (k * 16 + j) % 16 == j
  {}

  lemma SpelledParses(hi: bv8, lo: bv8, k: nat)
    requires k < 256 && Spells(hi, k / 16) && Spells(lo, k % 16)
    ensures ParsePair(hi, lo) == Some(k as bv8)
  {
    hide Spells, ParsePair;
    var b := ByteOf(k);
    PairSpelled(hi, lo, b);
  }

  lemma ByteOf(k: nat) returns (b: bv8)
    requires k < 256
    ensures b as int == k && b == k as bv8
  {
    var h := DigitOf(k / 16);
    var l := DigitOf(k % 16);
    Joined(h, l);
    b := (h << 4) | l;
    SameByte(b, k);
  }

  lemma DigitOf(v: nat) returns (d: bv8)
    requires v < 16
    ensures d as int == v && d < 16
  {
    d := v as bv8;
  }

  lemma Joined(h: bv8, l: bv8)
    requires h < 16 && l < 16
    ensures ((h << 4) | l) as int == 16 * (h as int) + l as int
  {}

  lemma SameByte(b: bv8, k: nat)
    requires b as int == k
    ensures k as bv8 == b
  {}

  lemma NumberSpelled(c: bv8, j: nat)
    requires j < 16
    requires var n := c as int; n == 48 + j < 58 || 65 <= n == 55 + j || 97 <= n == 87 + j
    ensures Spells(c, j)
  {
    UpperAt(j);
    LowerAt(j);
  }

  lemma NoPair(hi: bv8, lo: bv8)
    requires NoDigit(hi) || NoDigit(lo)
    ensures ParsePair(hi, lo).None?
  {
    hide DigitValue, NoDigit;
    DigitOrNot(hi);
    DigitOrNot(lo);
  }

  /** `ParseToU8` of a buffer: false where the source returns -1, for an odd or empty text or a foreign character;
      then only the bytes before the bad pair have been written. */
  method ParseToBytes(src: seq<bv8>, dst: array<bv8>) returns (ok: bool)
    requires |src| <= 2 * dst.Length
    modifies dst
    ensures ok <==> |src| % 2 == 0 && |src| > 0 && Decode(src).Some?
    ensures ok ==> dst[..|src| / 2] == Decode(src).value && SpellsAll(src, dst[..|src| / 2])
    ensures dst[(|src| + 1) / 2..] == old(dst[(|src| + 1) / 2..])
  {
    hide ParsePair, Decode, Spells, SpellsAll;
    if |src| % 2 == 1 || |src| == 0 {
      return false;
    }
    var len := |src| / 2;
    for i := 0 to len
      invariant Decode(src[2 * i..]).Some? <==> Decode(src).Some?
      invariant Decode(src).Some? ==> Decode(src).value == dst[..i] + Decode(src[2 * i..]).value
      invariant dst[len..] == old(dst[len..])
    {
      DecodePeels(src, i);
      var x := ParseToU8(src[2 * i..2 * i + 2]);
      if x < 0 {
        return false;
      }
      dst[i] := x as bv8;
      assert dst[..i + 1] == dst[..i] + [x as bv8];
    }
    ok := true;
    assert Decode(src[2 * len..]) == Some([]) by { DecodesNothing(); }
    TextRead(src, dst[..len]);
  }

  lemma DecodePeels(src: seq<bv8>, i: nat)
    requires |src| % 2 == 0 && 2 * i < |src|
    ensures Decode(src[2 * i..])
         == (match ParsePair(src[2 * i], src[2 * i + 1])
             case None => None
             case Some(x) => Prepend(x, Decode(src[2 * (i + 1)..])))
  {
    hide ParsePair;
    assert src[2 * i..][2..] == src[2 * (i + 1)..];
  }

  function Prepend(x: bv8, rest: Option<seq<bv8>>): Option<seq<bv8>> {
    if rest.Some? then Some([x] + rest.value) else None
  }

  lemma DecodesNothing()
    ensures Decode([]) == Some([])
  {}
}
