/** Overlaying one frame on another (src/sign/Group.cpp, `SetWithOrBuf1` and `SetWithOrBuf4`): a pixel that is off shows
    what is underneath. A byte holds eight one-bit pixels or two four-bit pixels. */
module Overlay {
  type Pixels = seq<bv8>

  function Over1(d: bv8, o: bv8): bv8 { d | o }

  function Over4(d: bv8, o: bv8): bv8 {
    var high := if d & 0xF0 == 0 then d | (o & 0xF0) else d;
    if high & 0x0F == 0 then high | (o & 0x0F) else high
  }

  /** `depth` is 1 or 4 bits a pixel. */
  function OverByte(depth: nat, d: bv8, o: bv8): bv8 {
    if depth == 1 then Over1(d, o) else Over4(d, o)
  }

  /** Frame `d` on top of `o`. */
  function Over(depth: nat, d: Pixels, o: Pixels): (r: Pixels)
    requires |d| <= |o|
    ensures |r| == |d|
  {
    seq(|d|, i requires 0 <= i < |d| => OverByte(depth, d[i], o[i]))
  }

  function Dark(n: nat): Pixels {
    seq(n, _ => 0)
  }

  // ----- What a pixel shows -----

  /** One of the eight pixels of a byte. */
  predicate Lit(b: bv8, bit: bv8) { b & bit != 0 }

  /** A one-bit pixel is lit when it is lit in either frame. */
  lemma Over1Pixel(d: bv8, o: bv8, bit: bv8)
    ensures Over1(d, o) & bit != 0 <==> d & bit != 0 || o & bit != 0
  {}

  function Half(b: bv8, high: bool): bv8 { if high then b >> 4 else b & 0x0F }

  /** A four-bit pixel of the upper frame wins unless it is off. */
  lemma Over4Pixel(d: bv8, o: bv8, high: bool)
    ensures Half(Over4(d, o), high) == if Half(d, high) != 0 then Half(d, high) else Half(o, high)
  {
    if high {} else {}
  }

  /** It does not matter in which grouping a stack of frames is composed. */
  lemma OverAssociates(depth: nat, a: Pixels, b: Pixels, c: Pixels)
    requires |a| == |b| == |c|
    ensures Over(depth, a, Over(depth, b, c)) == Over(depth, Over(depth, a, b), c)
  {
    hide OverByte;
    forall i | 0 <= i < |a|
      ensures OverByte(depth, a[i], OverByte(depth, b[i], c[i])) == OverByte(depth, OverByte(depth, a[i], b[i]), c[i])
    {
      ByteAssociates(depth, a[i], b[i], c[i]);
    }
  }

  lemma ByteAssociates(depth: nat, a: bv8, b: bv8, c: bv8)
    ensures OverByte(depth, a, OverByte(depth, b, c)) == OverByte(depth, OverByte(depth, a, b), c)
  {
    if depth == 1 {
      OrAssociates(a, b, c);
    } else {
      Over4Associates(a, b, c);
    }
  }

  lemma OrAssociates(a: bv8, b: bv8, c: bv8)
    ensures Over1(a, Over1(b, c)) == Over1(Over1(a, b), c)
  {}

  lemma Over4Associates(a: bv8, b: bv8, c: bv8)
    ensures Over4(a, Over4(b, c)) == Over4(Over4(a, b), c)
  {
    hide Over4, Half;
    forall high: bool ensures Half(Over4(a, Over4(b, c)), high) == Half(Over4(Over4(a, b), c), high) {
      Over4Pixel(a, Over4(b, c), high);
      Over4Pixel(b, c, high);
      Over4Pixel(Over4(a, b), c, high);
      Over4Pixel(a, b, high);
    }
    SameHalves(Over4(a, Over4(b, c)), Over4(Over4(a, b), c));
  }

  lemma SameHalves(x: bv8, y: bv8)
    requires Half(x, true) == Half(y, true) && Half(x, false) == Half(y, false)
    ensures x == y
  {}

  /** Overlaying a frame a second time changes nothing. */
  lemma OverTwice(depth: nat, a: Pixels, b: Pixels)
    requires |a| == |b|
    ensures Over(depth, a, Over(depth, a, b)) == Over(depth, a, b)
  {
    hide OverByte;
    forall i | 0 <= i < |a| ensures OverByte(depth, a[i], OverByte(depth, a[i], b[i])) == OverByte(depth, a[i], b[i]) {
      ByteTwice(depth, a[i], b[i]);
    }
  }

  lemma ByteTwice(depth: nat, a: bv8, b: bv8)
    ensures OverByte(depth, a, OverByte(depth, a, b)) == OverByte(depth, a, b)
  {
    hide Over1, Over4;
    BothTwice(a, b);
  }

  lemma BothTwice(a: bv8, b: bv8)
    ensures Over1(a, Over1(a, b)) == Over1(a, b) && Over4(a, Over4(a, b)) == Over4(a, b)
  {}

  lemma OverLights(d: Pixels, o: Pixels, i: nat, bit: bv8)
    requires i < |d| <= |o|
    ensures Lit(Over(1, d, o)[i], bit) <==> Lit(d[i], bit) || Lit(o[i], bit)
  {
    Over1Pixel(d[i], o[i], bit);
  }

  lemma OverPixel(d: Pixels, o: Pixels, i: nat, high: bool)
    requires i < |d| <= |o|
    ensures Half(Over(4, d, o)[i], high) == if Half(d[i], high) != 0 then Half(d[i], high) else Half(o[i], high)
  {
    Over4Pixel(d[i], o[i], high);
  }

  // ----- The loops -----

  /** `dst` may be `orBuf` itself, when an overlay frame is collected into it. */
  method SetWithOrBuf(depth: nat, dst: array<bv8>, at: nat, src: Pixels, orBuf: array<bv8>)
    requires depth == 1 || depth == 4
    requires |src| <= orBuf.Length && at + |src| <= dst.Length
    requires dst == orBuf ==> at == 0
    modifies dst
    ensures dst[at..at + |src|] == Over(depth, src, old(orBuf[..]))
    ensures forall k :: 0 <= k < at || at + |src| <= k < dst.Length ==> dst[k] == old(dst[k])
    ensures dst != orBuf ==> orBuf[..] == old(orBuf[..])
  {
    if depth == 1 {
      SetWithOrBuf1(dst, at, src, orBuf);
    } else {
      SetWithOrBuf4(dst, at, src, orBuf);
    }
  }

  method SetWithOrBuf1(dst: array<bv8>, at: nat, src: Pixels, orBuf: array<bv8>)
    requires |src| <= orBuf.Length && at + |src| <= dst.Length
    requires dst == orBuf ==> at == 0
    modifies dst
    ensures dst[at..at + |src|] == Over(1, src, old(orBuf[..]))
    ensures forall k, bit :: 0 <= k < |src| ==> (Lit(dst[at + k], bit) <==> Lit(src[k], bit) || Lit(old(orBuf[k]), bit))
    ensures forall k :: 0 <= k < at || at + |src| <= k < dst.Length ==> dst[k] == old(dst[k])
    ensures dst != orBuf ==> orBuf[..] == old(orBuf[..])
  {
    hide Over1;
    for i := 0 to |src|
      invariant forall k :: 0 <= k < i ==> dst[at + k] == Over1(src[k], old(orBuf[k]))
      invariant forall k :: 0 <= k < at || at + i <= k < dst.Length ==> dst[k] == old(dst[k])
    {
      dst[at + i] := src[i] | orBuf[i];
      assert dst[at + i] == Over1(src[i], old(orBuf[i])) by { OrSteps(src[i], old(orBuf[i])); }
    }
    hide Lit;
    ghost var was := old(orBuf[..]);
    assert dst[at..at + |src|] == Over(1, src, was);
    forall k, bit | 0 <= k < |src| ensures Lit(dst[at + k], bit) <==> Lit(src[k], bit) || Lit(old(orBuf[k]), bit) {
      OverLights(src, was, k, bit);
      assert dst[at..at + |src|][k] == dst[at + k];
    }
  }

  method SetWithOrBuf4(dst: array<bv8>, at: nat, src: Pixels, orBuf: array<bv8>)
    requires |src| <= orBuf.Length && at + |src| <= dst.Length
    requires dst == orBuf ==> at == 0
    modifies dst
    ensures dst[at..at + |src|] == Over(4, src, old(orBuf[..]))
    ensures forall k, high :: 0 <= k < |src| ==>
              Half(dst[at + k], high) == if Half(src[k], high) != 0 then Half(src[k], high) else Half(old(orBuf[k]), high)
    ensures forall k :: 0 <= k < at || at + |src| <= k < dst.Length ==> dst[k] == old(dst[k])
    ensures dst != orBuf ==> orBuf[..] == old(orBuf[..])
  {
    for i := 0 to |src|
      invariant forall k :: 0 <= k < i ==> dst[at + k] == OverByte(4, src[k], old(orBuf[k]))
      invariant forall k :: 0 <= k < at || at + i <= k < dst.Length ==> dst[k] == old(dst[k])
    {
      hide OverByte;
      var d := src[i];
      var o := orBuf[i];
      ghost var d0 := d;
      if d & 0xF0 == 0 {
        d := d | (o & 0xF0);
      }
      if d & 0x0F == 0 {
        d := d | (o & 0x0F);
      }
      assert d == OverByte(4, d0, o) by { NibbleSteps(d0, o); }
      dst[at + i] := d;
    }
    hide Over4, Half;
    ghost var was := old(orBuf[..]);
    assert dst[at..at + |src|] == Over(4, src, was);
    forall k, high | 0 <= k < |src|
      ensures Half(dst[at + k], high) == if Half(src[k], high) != 0 then Half(src[k], high) else Half(old(orBuf[k]), high)
    {
      OverPixel(src, was, k, high);
      assert dst[at..at + |src|][k] == dst[at + k];
    }
  }

  lemma OrSteps(d: bv8, o: bv8)
    ensures Over1(d, o) == d | o
  {}

  lemma NibbleSteps(d: bv8, o: bv8)
    ensures var h := if d & 0xF0 == 0 then d | (o & 0xF0) else d;
            OverByte(4, d, o) == if h & 0x0F == 0 then h | (o & 0x0F) else h
  {}
}
