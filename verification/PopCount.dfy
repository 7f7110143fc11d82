/** Bit counting of applications/matter_common/matter_ota.c: the pack header carries a 256-bit
    file indicator, one set bit per sub-image, counted 32 bits at a time. */
module PopCount {

  // The five mask-and-add steps, one function a step.

  function Pairs(w: bv32): bv32 { (w & 0x55555555) + ((w >> 1) & 0x55555555) }

  function Nibbles(w: bv32): bv32 { (w & 0x33333333) + ((w >> 2) & 0x33333333) }

  function Octets(w: bv32): bv32 { (w & 0x0F0F0F0F) + ((w >> 4) & 0x0F0F0F0F) }

  function Halves(w: bv32): bv32 { (w & 0x00FF00FF) + ((w >> 8) & 0x00FF00FF) }

  function Whole(w: bv32): bv32 { (w & 0x0000FFFF) + ((w >> 16) & 0x0000FFFF) }

  function PerOctet(w: bv32): bv32 { Octets(Nibbles(Pairs(w))) }

  function Swar(w: bv32): bv32 { Whole(Halves(PerOctet(w))) }

  /** The number of set bits, one bit at a time. */
  function BitCount(w: bv32): nat {
    if w == 0 then 0 else (if w & 1 == 1 then 1 else 0) + BitCount(w >> 1)
  }

  function Octet(w: bv32, i: bv32): (x: bv32)
    ensures x <= 0xFF
  {
    (w >> (8 * (i & 3))) & 0xFF
  }

  // Each of the first three steps keeps its fields inside an octet, so it works on every octet alone.

  lemma PairsByOctet(w: bv32)
    ensures Octet(Pairs(w), 0) == Pairs(Octet(w, 0)) && Octet(Pairs(w), 1) == Pairs(Octet(w, 1))
    ensures Octet(Pairs(w), 2) == Pairs(Octet(w, 2)) && Octet(Pairs(w), 3) == Pairs(Octet(w, 3))
  {
  }

  lemma NibblesByOctet(w: bv32)
    ensures Octet(Nibbles(w), 0) == Nibbles(Octet(w, 0)) && Octet(Nibbles(w), 1) == Nibbles(Octet(w, 1))
    ensures Octet(Nibbles(w), 2) == Nibbles(Octet(w, 2)) && Octet(Nibbles(w), 3) == Nibbles(Octet(w, 3))
  {
  }

  lemma OctetsByOctet(w: bv32)
    ensures Octet(Octets(w), 0) == Octets(Octet(w, 0)) && Octet(Octets(w), 1) == Octets(Octet(w, 1))
    ensures Octet(Octets(w), 2) == Octets(Octet(w, 2)) && Octet(Octets(w), 3) == Octets(Octet(w, 3))
  {
  }

  function Add4(p0: bv32, p1: bv32, p2: bv32, p3: bv32): bv32 { (p0 + p1) + (p2 + p3) }

  function ToNat(x: bv32): nat { x as nat }

  function ShiftIn(x: bv32, carry: bv32): bv32 { (x >> 1) | (carry << 7) }

  lemma OctetAtMost8(x: bv32)
    requires x <= 0xFF
    ensures PerOctet(x) <= 8
  {
  }

  /** The last two steps add up the four octets. */
  lemma LastStepsAdd(w: bv32)
    requires Octet(w, 0) <= 8 && Octet(w, 1) <= 8 && Octet(w, 2) <= 8 && Octet(w, 3) <= 8
    ensures Whole(Halves(w)) == Add4(Octet(w, 0), Octet(w, 1), Octet(w, 2), Octet(w, 3))
  {
  }

  lemma AddBit(bit: bv32, x: bv32)
    requires bit <= 1 && x <= 32
    ensures (bit + x) as nat == bit as nat + x as nat
  {
  }

  lemma Regroup(x: bv32, y: bv32)
    ensures 1 + ((x - 1) + y) == x + y && 1 + (x - 1) == x
  {
  }

  /** Small words add as numbers do. */
  lemma {:induction false} AddSmall(x: bv32, y: bv32)
    requires x <= 16 && y <= 16
    ensures ToNat(x + y) == ToNat(x) + ToNat(y)
    decreases x
  {
    if x != 0 {
      AddSmall(x - 1, y);
      Regroup(x, y);
      AddBit(1, x - 1);
      AddBit(1, (x - 1) + y);
    }
  }

  function OctetBits(x: bv32): nat { ToNat(PerOctet(x)) }

  lemma SwarByOctet(w: bv32)
    ensures ToNat(Swar(w)) ==
            OctetBits(Octet(w, 0)) + OctetBits(Octet(w, 1)) + OctetBits(Octet(w, 2)) + OctetBits(Octet(w, 3))
    ensures ToNat(Swar(w)) <= 32
  {
    hide Pairs, Nibbles, Octets, Halves, Whole, Octet, Add4, ToNat;
    PairsByOctet(w);
    NibblesByOctet(Pairs(w));
    OctetsByOctet(Nibbles(Pairs(w)));
    var p0, p1, p2, p3 :=
      PerOctet(Octet(w, 0)), PerOctet(Octet(w, 1)), PerOctet(Octet(w, 2)), PerOctet(Octet(w, 3));
    OctetAtMost8(Octet(w, 0));
    OctetAtMost8(Octet(w, 1));
    OctetAtMost8(Octet(w, 2));
    OctetAtMost8(Octet(w, 3));
    LastStepsAdd(PerOctet(w));
    AddFour(p0, p1, p2, p3);
  }

  lemma AddFour(p0: bv32, p1: bv32, p2: bv32, p3: bv32)
    requires p0 <= 8 && p1 <= 8 && p2 <= 8 && p3 <= 8
    ensures ToNat(Add4(p0, p1, p2, p3)) == ToNat(p0) + ToNat(p1) + ToNat(p2) + ToNat(p3) <= 32
  {
    hide ToNat;
    AtMost8(p0);
    AtMost8(p1);
    AtMost8(p2);
    AtMost8(p3);
    AddSmall(p0, p1);
    AddSmall(p2, p3);
    SumAtMost16(p0, p1);
    SumAtMost16(p2, p3);
    AddSmall(p0 + p1, p2 + p3);
  }

  lemma AtMost8(x: bv32)
    requires x <= 8
    ensures ToNat(x) <= 8
  {
  }

  lemma SumAtMost16(x: bv32, y: bv32)
    requires x <= 8 && y <= 8
    ensures x + y <= 16
  {
  }

  lemma OctetShiftWords(x: bv32, carry: bv32)
    requires x <= 0xFF && carry <= 1
    ensures (x & 1) + PerOctet(ShiftIn(x, carry)) == carry + PerOctet(x)
    ensures PerOctet(ShiftIn(x, carry)) <= 8 && x & 1 <= 1
  {
  }

  /** Shifting an octet right drops its low bit and takes in the low bit of the next one. */
  lemma OctetShift(x: bv32, carry: bv32)
    requires x <= 0xFF && carry <= 1
    ensures ToNat(x & 1) + OctetBits(ShiftIn(x, carry)) == ToNat(carry) + OctetBits(x)
  {
    OctetShiftWords(x, carry);
    OctetAtMost8(x);
    AddBit(x & 1, PerOctet(ShiftIn(x, carry)));
    AddBit(carry, PerOctet(x));
  }

  lemma OctetsOfShift(w: bv32)
    ensures Octet(w >> 1, 0) == ShiftIn(Octet(w, 0), Octet(w, 1) & 1)
    ensures Octet(w >> 1, 1) == ShiftIn(Octet(w, 1), Octet(w, 2) & 1)
    ensures Octet(w >> 1, 2) == ShiftIn(Octet(w, 2), Octet(w, 3) & 1)
    ensures Octet(w >> 1, 3) == ShiftIn(Octet(w, 3), 0)
    ensures w & 1 == Octet(w, 0) & 1
  {
  }

  lemma SwarShift(w: bv32)
    ensures ToNat(Swar(w)) == ToNat(w & 1) + ToNat(Swar(w >> 1))
  {
    hide *;
    OctetsOfShift(w);
    OctetShift(Octet(w, 0), Octet(w, 1) & 1);
    OctetShift(Octet(w, 1), Octet(w, 2) & 1);
    OctetShift(Octet(w, 2), Octet(w, 3) & 1);
    OctetShift(Octet(w, 3), 0);
    SwarByOctet(w);
    SwarByOctet(w >> 1);
    assert ToNat(0) == 0 by { ZeroIsZero(); }
  }

  lemma ZeroIsZero()
    ensures ToNat(0) == 0 == ToNat(Swar(0))
  {
  }

  lemma LowBit(w: bv32)
    ensures ToNat(w & 1) == if w & 1 == 1 then 1 else 0
  {
    assert w & 1 == 0 || w & 1 == 1;
  }

  /** The mask-and-add steps count the set bits of every 32-bit word. */
  lemma {:induction false} SwarCounts(w: bv32)
    ensures ToNat(Swar(w)) == BitCount(w) <= 32
  {
    hide Swar, ToNat;
    if w == 0 {
      ZeroIsZero();
    } else {
      LowBit(w);
      SwarShift(w);
      SwarCounts(w >> 1);
    }
    SwarByOctet(w);
  }

  /** x & (x - 1) clears the lowest set bit, wherever it is. */
  function Cleared(w: bv32): bv32 { And(w, Before(w)) }

  function And(x: bv32, y: bv32): bv32 { x & y }

  function Before(w: bv32): bv32 { w - 1 }

  lemma ClearedOdd(w: bv32)
    requires w & 1 == 1
    ensures Cleared(w) & 1 == 0 && Cleared(w) >> 1 == w >> 1
  {
  }

  lemma ClearedEven(w: bv32)
    requires w & 1 == 0 && w != 0
    ensures w >> 1 != 0 && Cleared(w) & 1 == 0
  {
  }

  lemma ShiftDistributes(x: bv32, y: bv32)
    ensures And(x, y) >> 1 == And(x >> 1, y >> 1)
  {
  }

  lemma HalfBefore(w: bv32)
    requires w & 1 == 0 && w != 0
    ensures Before(w) >> 1 == Before(w >> 1)
  {
  }

  lemma ClearedEvenHalf(w: bv32)
    requires w & 1 == 0 && w != 0
    ensures Cleared(w) >> 1 == Cleared(w >> 1)
  {
    hide And, Before;
    ShiftDistributes(w, Before(w));
    HalfBefore(w);
  }

  lemma ClearedLess(w: bv32)
    requires w != 0
    ensures Cleared(w) < w
  {
  }

  lemma BitCountStep(w: bv32)
    ensures BitCount(w) == (if w & 1 == 1 then 1 else 0) + BitCount(w >> 1)
  {
  }

  lemma LowBitIsBit(w: bv32)
    ensures w & 1 == 0 || w & 1 == 1
  {
  }

  lemma {:induction false} ClearLowestBit(w: bv32)
    requires w != 0
    ensures BitCount(Cleared(w)) == BitCount(w) - 1
  {
    hide Cleared;
    LowBitIsBit(w);
    BitCountStep(w);
    BitCountStep(Cleared(w));
    if w & 1 == 0 {
      ClearedEven(w);
      ClearedEvenHalf(w);
      ClearLowestBit(w >> 1);
    } else {
      ClearedOdd(w);
    }
  }

  /** The bit-counting loop of include/dfu/bt_types.h, which clears the lowest set bit each time round;
      it agrees with the mask-and-add steps. */
  method ClearingCount(w: bv32) returns (count: nat)
    ensures count == BitCount(w) == ToNat(Swar(w))
  {
    hide Swar, ToNat, Cleared;
    SwarCounts(w);
    count := 0;
    var rest := w;
    while rest != 0
      invariant count + BitCount(rest) == BitCount(w)
      decreases rest
    {
      ClearLowestBit(rest);
      ClearedLess(rest);
      count := count + 1;
      rest := Cleared(rest);
    }
  }

  function Word(b0: bv8, b1: bv8, b2: bv8, b3: bv8): bv32 {
    (b0 as bv32) | ((b1 as bv32) << 8) | ((b2 as bv32) << 16) | ((b3 as bv32) << 24)
  }

  lemma OctetsOfWord(b0: bv8, b1: bv8, b2: bv8, b3: bv8)
    ensures Octet(Word(b0, b1, b2, b3), 0) == b0 as bv32 && Octet(Word(b0, b1, b2, b3), 1) == b1 as bv32
    ensures Octet(Word(b0, b1, b2, b3), 2) == b2 as bv32 && Octet(Word(b0, b1, b2, b3), 3) == b3 as bv32
  {
  }

  function ByteBits(b: bv8): nat { BitCount(b as bv32) }

  lemma ByteIsItsOctet(b: bv8)
    ensures Octet(b as bv32, 0) == b as bv32
    ensures Octet(b as bv32, 1) == Octet(b as bv32, 2) == Octet(b as bv32, 3) == 0
  {
  }

  lemma NoBits()
    ensures OctetBits(0) == 0
  {
  }

  lemma ByteBitsAreOctetBits(b: bv8)
    ensures ByteBits(b) == OctetBits(b as bv32)
  {
    hide Octet, Swar, OctetBits, ToNat;
    ByteIsItsOctet(b);
    NoBits();
    SwarByOctet(b as bv32);
    SwarCounts(b as bv32);
  }

  /** A little-endian word holds the set bits of its four bytes. */
  lemma WordBits(b0: bv8, b1: bv8, b2: bv8, b3: bv8)
    ensures ToNat(Swar(Word(b0, b1, b2, b3))) == ByteBits(b0) + ByteBits(b1) + ByteBits(b2) + ByteBits(b3)
  {
    hide *;
    OctetsOfWord(b0, b1, b2, b3);
    ByteBitsAreOctetBits(b0);
    ByteBitsAreOctetBits(b1);
    ByteBitsAreOctetBits(b2);
    ByteBitsAreOctetBits(b3);
    SwarByOctet(Word(b0, b1, b2, b3));
  }

  /** Set bits of a byte string. */
  function SetBits(s: seq<bv8>): nat {
    if s == [] then 0 else SetBits(s[..|s| - 1]) + ByteBits(s[|s| - 1])
  }

  /** rtk_matter_ota_get_indicator_count over the 32 indicator bytes: eight words, added up in a uint8_t. */
  method IndicatorCount(indicator: seq<bv8>) returns (count: nat)
    requires |indicator| == 32
    ensures count == SetBits(indicator) % 256
    ensures count == SetBits(indicator) <==> SetBits(indicator) <= 255
  {
    hide Swar, ToNat, Word, ByteBits, SetBits;
    EmptyHasNoBits();
    count := 0;
    var i := 0;
    while i < 32
      invariant i == 0 || i == 4 || i == 8 || i == 12 || i == 16 || i == 20 || i == 24 || i == 28 || i == 32
      invariant count == SetBits(indicator[..i]) % 256
    {
      var bits := ToNat(Swar(Word(indicator[i], indicator[i + 1], indicator[i + 2], indicator[i + 3])));
      NextWord(indicator, i);
      AddModulo(SetBits(indicator[..i]), bits);
      count := (count + bits) % 256;
      i := i + 4;
    }
    assert indicator[..32] == indicator;
  }

  lemma EmptyHasNoBits()
    ensures SetBits([]) == 0
  {
  }

  lemma AddModulo(total: nat, more: nat)
    ensures (total % 256 + more) % 256 == (total + more) % 256
  {
  }

  lemma NextWord(s: seq<bv8>, i: nat)
    requires i + 4 <= |s|
    ensures SetBits(s[..i + 4]) == SetBits(s[..i]) + ToNat(Swar(Word(s[i], s[i + 1], s[i + 2], s[i + 3])))
  {
    hide *;
    WordBits(s[i], s[i + 1], s[i + 2], s[i + 3]);
    FourMore(s, i);
  }

  lemma FourMore(s: seq<bv8>, i: nat)
    requires i + 4 <= |s|
    ensures SetBits(s[..i + 4]) ==
            SetBits(s[..i]) + ByteBits(s[i]) + ByteBits(s[i + 1]) + ByteBits(s[i + 2]) + ByteBits(s[i + 3])
  {
    hide ByteBits;
    SetBitsStep(s, i);
    SetBitsStep(s, i + 1);
    SetBitsStep(s, i + 2);
    SetBitsStep(s, i + 3);
  }

  lemma SetBitsStep(s: seq<bv8>, i: nat)
    requires i < |s|
    ensures SetBits(s[..i + 1]) == SetBits(s[..i]) + ByteBits(s[i])
  {
    hide ByteBits;
    assert s[..i + 1][..i] == s[..i];
  }
}
