/** Sixteen-bit words as two bytes, high byte first (`PutU16` and `GetU16` of src/module/Utils.cpp). */
module Words {
  function HighByte(w: bv16): bv8 { (w >> 8) as bv8 }

  function LowByte(w: bv16): bv8 { (w & 0x00FF) as bv8 }

  function Word(hi: bv8, lo: bv8): bv16 { ((hi as bv16) << 8) ^ (lo as bv16) }

  function PutU16(w: bv16): (bytes: seq<bv8>)
    ensures |bytes| == 2
  {
    [HighByte(w), LowByte(w)]
  }

  function GetU16(bytes: seq<bv8>): bv16
    requires |bytes| == 2
  {
    Word(bytes[0], bytes[1])
  }

  lemma BytesOfWord(hi: bv8, lo: bv8)
    ensures HighByte(Word(hi, lo)) == hi && LowByte(Word(hi, lo)) == lo
  {}

  lemma WordOfBytes(w: bv16)
    ensures Word(HighByte(w), LowByte(w)) == w
  {}

  /** A word as a number: 256 times its high byte and its low byte. */
  lemma WordAsNumber(w: bv16)
    ensures w as int == 256 * HighByte(w) as int + LowByte(w) as int
  {
    WordOfBytes(w);
    hide HighByte, LowByte;
    BytesAsNumber(HighByte(w), LowByte(w));
  }

  lemma BytesAsNumber(hi: bv8, lo: bv8)
    ensures Word(hi, lo) as int == 256 * hi as int + lo as int
  {
    var h, l := hi as bv16, lo as bv16;
    assert h as int == hi as int && l as int == lo as int;
    WordsAsNumber(h, l);
  }

  lemma WordsAsNumber(h: bv16, l: bv16)
    requires h < 256 && l < 256
    ensures ((h << 8) ^ l) as int == 256 * h as int + l as int
  {}

  /** Reading what was written, and writing what was read. */
  lemma PutThenGet(w: bv16, bytes: seq<bv8>)
    requires |bytes| == 2
    ensures GetU16(PutU16(w)) == w
    ensures PutU16(GetU16(bytes)) == bytes
  {
    hide HighByte, LowByte, Word;
    WordOfBytes(w);
    BytesOfWord(bytes[0], bytes[1]);
  }
}
