/** The bit set of src/module/Utils.cpp (`Bits`, `BitOffset`): bit k lives in byte k / 8, counted from the top. */
module BitSet {
  function Mask(j: nat): bv8 {
    match j
    case 0 => 0x80 case 1 => 0x40 case 2 => 0x20 case 3 => 0x10
    case 4 => 0x08 case 5 => 0x04 case 6 => 0x02 case 7 => 0x01
    case _ => 0
  }

  function Get(b: bv8, j: nat): bool { b & Mask(j) != 0 }

  /** Bit 0 of a byte is its highest, with the value 128, and bit 7 its lowest. */
  lemma CountedFromTheTop(b: bv8, j: nat)
    requires j < 8
    ensures Get(b, j) <==> (b >> (7 - j)) & 1 == 1
  {}

  lemma SetOne(b: bv8, i: nat, j: nat)
    requires i < 8 && j < 8
    ensures Get(b | Mask(i), j) == (i == j || Get(b, j))
  {}

  lemma ClearOne(b: bv8, i: nat, j: nat)
    requires i < 8 && j < 8
    ensures Get(b & !Mask(i), j) == (i != j && Get(b, j))
  {}

  lemma NothingSet(j: nat)
    ensures !Get(0, j)
  {}

  class Bits {
    const size: nat
    const data: array<bv8>

    ghost predicate Valid() {
      data.Length == (size + 7) / 8
    }

    ghost predicate Has(k: nat)
      requires Valid() && k < size
      reads data
    {
      Get(data[k / 8], k % 8)
    }

    /** The bits that are set. */
    ghost function Contents(): set<nat>
      requires Valid()
      reads data
    {
      set k | 0 <= k < size && Has(k)
    }

    constructor (size: nat)
      ensures Valid() && this.size == size && Contents() == {} && fresh(data)
    {
      this.size := size;
      data := new bv8[(size + 7) / 8];
      new;
      ClrAll();
    }

    method SetBit(k: nat)
      requires Valid() && k < size
      modifies data
      ensures Contents() == old(Contents()) + {k}
    {
      hide Mask, Get;
      data[k / 8] := data[k / 8] | Mask(k % 8);
      forall n | 0 <= n < size ensures Has(n) == (n == k || old(Has(n))) {
        SetOne(old(data[k / 8]), k % 8, n % 8);
      }
    }

    method ClrBit(k: nat)
      requires Valid() && k < size
      modifies data
      ensures Contents() == old(Contents()) - {k}
    {
      hide Mask, Get;
      data[k / 8] := data[k / 8] & !Mask(k % 8);
      forall n | 0 <= n < size ensures Has(n) == (n != k && old(Has(n))) {
        ClearOne(old(data[k / 8]), k % 8, n % 8);
      }
    }

    method ClrAll()
      requires Valid()
      modifies data
      ensures Contents() == {}
    {
      hide Mask, Get;
      forall n | 0 <= n < data.Length {
        data[n] := 0;
      }
      forall n | 0 <= n < size ensures !Has(n) {
        NothingSet(n % 8);
      }
    }

    method GetBit(k: nat) returns (on: bool)
      requires Valid() && k < size
      ensures on == (k in Contents())
    {
      on := Get(data[k / 8], k % 8);
    }

    /** The highest bit that is set, or -1. */
    method GetMaxBit() returns (max: int)
      requires Valid()
      ensures max == -1 <==> Contents() == {}
      ensures max != -1 ==> max >= 0 && max as nat in Contents()
      ensures forall k :: k in Contents() ==> k <= max
    {
      hide Mask, Get;
      max := -1;
      for i := 0 to size
        invariant -1 <= max < i
        invariant max == -1 || Has(max)
        invariant forall k :: max < k < i ==> !Has(k)
      {
        var on := GetBit(i);
        if on {
          max := i;
        }
      }
      if max != -1 {
        assert max in Contents();
      }
    }
  }
}
