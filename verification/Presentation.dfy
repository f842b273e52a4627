/** The presentation layer of src/layer/LayerPrst.cpp: application bytes on top, hexadecimal text below. */
module Presentation {
  import opened Hex
  import opened Wrappers

  /** The bytes passed up for a received text: `None` where `Rx` returns -1. */
  function Parsed(maxlen: nat, text: seq<bv8>): Option<seq<bv8>> {
    if |text| <= maxlen * 2 && |text| % 2 == 0 && |text| > 0 then Decode(text) else None
  }

  /** The text passed down for a payload: `None` where `Tx` returns -1. */
  function Printed(maxlen: nat, data: seq<bv8>): Option<seq<bv8>> {
    if 0 < |data| <= maxlen then Some(Encode(data)) else None
  }

  class LayerPrst {
    const maxlen: nat
    const buf: array<bv8>

    ghost predicate Valid() {
      0 < maxlen && buf.Length == 2 * maxlen
    }

    constructor (maxlen: nat)
      requires maxlen > 0
      ensures Valid() && this.maxlen == maxlen && fresh(buf)
    {
      this.maxlen := maxlen;
      buf := new bv8[maxlen * 2];
    }

    method Rx(text: seq<bv8>) returns (data: Option<seq<bv8>>)
      requires Valid()
      modifies buf
      ensures data == Parsed(maxlen, text)
    {
      if |text| > maxlen * 2 {
        return None;
      }
      var ok := ParseToBytes(text, buf);
      data := if ok then Some(buf[..|text| / 2]) else None;
    }

    method Tx(data: seq<bv8>) returns (text: Option<seq<bv8>>)
      requires Valid()
      modifies buf
      ensures text == Printed(maxlen, data)
    {
      if |data| <= 0 || |data| > maxlen {
        return None;
      }
      ParseToAsc(data, buf, 0);
      text := Some(buf[..2 * |data|]);
    }
  }

  /** A payload that is accepted for sending is accepted back unchanged by a layer of the same size. */
  lemma PrintedParses(maxlen: nat, data: seq<bv8>)
    ensures Printed(maxlen, data).Some? ==> Parsed(maxlen, Printed(maxlen, data).value) == Some(data)
  {
    EncodeThenDecode(data);
  }
}
