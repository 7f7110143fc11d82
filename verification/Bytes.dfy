/** Bytes, little-endian fields and C integer widths shared by the update pipeline. */
module Bytes {
  type byte = bv8

  const U8_RANGE := 0x100
  const U32_RANGE := 0x1_0000_0000

  /** What a uint8_t keeps of a value. */
  function U8(x: nat): (r: nat)
    ensures r < U8_RANGE && (x < U8_RANGE ==> r == x)
  {
    x % U8_RANGE
  }

  /** What a uint32_t keeps of a value; subtraction wraps as well. */
  function U32(x: int): (r: nat)
    ensures r < U32_RANGE && (0 <= x < U32_RANGE ==> r == x)
  {
    x % U32_RANGE
  }

  /** Range and identity below it say nothing of larger values; going round once does. */
  lemma Wraps(x: int)
    ensures U32(x + U32_RANGE) == U32(x)
    ensures 0 <= x ==> U8(x + U8_RANGE) == U8(x)
  {
  }

  // ---------- bits ----------

  function And(x: byte, y: byte): byte { x & y }

  function Or(x: byte, y: byte): byte { x | y }

  /** x with the bits of m cleared. */
  function Clear(x: byte, m: byte): byte { x & !m }

  /** The byte in which only bit k is set. */
  function OnlyBit(k: nat): byte
    requires k < 8
  {
    match k
    case 0 => 0x01
    case 1 => 0x02
    case 2 => 0x04
    case 3 => 0x08
    case 4 => 0x10
    case 5 => 0x20
    case 6 => 0x40
    case _ => 0x80
  }

  predicate Bit(x: byte, k: nat)
    requires k < 8
  {
    Meet(x, OnlyBit(k))
  }

  predicate Meet(x: byte, m: byte) { x & m != 0 }

  /** A mask of one bit. */
  predicate OneBit(m: byte) { m != 0 && m & (m - 1) == 0 }

  lemma MeetAnd(x: byte, y: byte, m: byte)
    requires OneBit(m)
    ensures Meet(And(x, y), m) <==> Meet(x, m) && Meet(y, m)
  {
  }

  lemma MeetOr(x: byte, y: byte, m: byte)
    ensures Meet(Or(x, y), m) <==> Meet(x, m) || Meet(y, m)
  {
  }

  lemma MeetClear(x: byte, y: byte, m: byte)
    requires OneBit(m)
    ensures Meet(Clear(x, y), m) <==> Meet(x, m) && !Meet(y, m)
  {
  }

  lemma OnlyBitIsOne(k: nat)
    requires k < 8
    ensures OneBit(OnlyBit(k))
  {
  }

  /** What the three do to every single bit. */
  lemma BitByBit(x: byte, y: byte, k: nat)
    requires k < 8
    ensures Bit(And(x, y), k) <==> Bit(x, k) && Bit(y, k)
    ensures Bit(Or(x, y), k) <==> Bit(x, k) || Bit(y, k)
    ensures Bit(Clear(x, y), k) <==> Bit(x, k) && !Bit(y, k)
  {
    hide And, Or, Clear, Meet, OneBit, OnlyBit;
    OnlyBitIsOne(k);
    MeetAnd(x, y, OnlyBit(k));
    MeetOr(x, y, OnlyBit(k));
    MeetClear(x, y, OnlyBit(k));
  }

  lemma AndBits(x: byte, m: byte)
    ensures And(0xFF, x) == x && And(x, x) == x
    ensures And(x, Clear(x, m)) == Clear(x, m) == Clear(Clear(x, m), m)
    ensures And(Or(x, m), m) == m && And(Clear(x, m), m) == 0
  {
  }

  /** The two agree in every bit outside the mask. */
  ghost predicate SameBits(x: byte, y: byte, m: byte) {
    forall k: byte :: And(k, m) == 0 ==> And(x, k) == And(y, k)
  }

  /** The bits of the mask are cleared, and no other is touched. */
  ghost predicate BitsCleared(before: byte, after: byte, m: byte) {
    SameBits(before, after, m) && And(after, m) == 0
  }

  /** The bits of the mask are set, and no other is touched. */
  ghost predicate BitsSet(before: byte, after: byte, m: byte) {
    SameBits(before, after, m) && And(after, m) == m
  }

  lemma OutsideMask(x: byte, m: byte, k: byte)
    requires And(k, m) == 0
    ensures And(Clear(x, m), k) == And(x, k) == And(Or(x, m), k)
  {
  }

  lemma ClearClears(x: byte, m: byte)
    ensures BitsCleared(x, Clear(x, m), m)
  {
    hide And, Clear, Or;
    AndBits(x, m);
    forall k: byte | And(k, m) == 0
      ensures And(x, k) == And(Clear(x, m), k)
    {
      OutsideMask(x, m, k);
    }
  }

  lemma OrSets(x: byte, m: byte)
    ensures BitsSet(x, Or(x, m), m)
  {
    hide And, Clear, Or;
    AndBits(x, m);
    forall k: byte | And(k, m) == 0
      ensures And(x, k) == And(Or(x, m), k)
    {
      OutsideMask(x, m, k);
    }
  }

  lemma ComplementMask(x: byte, m: byte)
    ensures And(Clear(0xFF, m), m) == 0 && And(x, Clear(0xFF, m)) == Clear(x, m)
  {
  }

  /** Two bytes agree outside the mask exactly when clearing the mask makes them equal. */
  lemma SameBitsExactly(x: byte, y: byte, m: byte)
    ensures SameBits(x, y, m) <==> Clear(x, m) == Clear(y, m)
  {
    hide And, Clear, Or;
    ComplementMask(x, m);
    ComplementMask(y, m);
    if Clear(x, m) == Clear(y, m) {
      forall k: byte | And(k, m) == 0
        ensures And(x, k) == And(y, k)
      {
        OutsideMask(x, m, k);
        OutsideMask(y, m, k);
      }
    } else {
      assert And(x, Clear(0xFF, m)) != And(y, Clear(0xFF, m));
    }
  }

  // ---------- numbers ----------

  function Val(b: byte): (n: nat)
    ensures n < 256
  {
    b as nat
  }

  function Le16(s: seq<byte>, i: nat): (n: nat)
    requires i + 2 <= |s|
    ensures n < 0x1_0000
  {
    Val(s[i]) + 256 * Val(s[i + 1])
  }

  function Le32(s: seq<byte>, i: nat): (n: nat)
    requires i + 4 <= |s|
    ensures n < U32_RANGE
  {
    Le16(s, i) + 0x1_0000 * Le16(s, i + 2)
  }

  lemma Le32OfSlice(s: seq<byte>, a: nat)
    requires a + 4 <= |s|
    ensures Le32(s[a..a + 4], 0) == Le32(s, a)
  {
    hide Val;
  }

  function Next(b: byte): byte { b + 1 }

  lemma ValNext(b: byte)
    ensures Val(b) < 255 ==> Val(Next(b)) == Val(b) + 1
    ensures Val(0) == 0
  {
  }

  lemma ValDiffers(b: byte, c: byte)
    ensures Val(b) == Val(c) ==> b == c
  {
  }

  /** The byte with this value. */
  function ByteOf(n: nat): (b: byte)
    requires n < 256
    ensures Val(b) == n
  {
    ValNext(if n == 0 then 0 else ByteOf(n - 1));
    if n == 0 then 0 else Next(ByteOf(n - 1))
  }

  lemma ByteOfVal(b: byte)
    ensures ByteOf(Val(b)) == b
  {
    hide Val;
    ValDiffers(ByteOf(Val(b)), b);
  }

  /** A number as the two, or four, bytes a sender writes: the least significant first. */
  function Bytes16(n: nat): (s: seq<byte>)
    requires n < 0x1_0000
    ensures |s| == 2
  {
    [ByteOf(n % 256), ByteOf(n / 256)]
  }

  function Bytes32(n: nat): (s: seq<byte>)
    requires n < U32_RANGE
    ensures |s| == 4
  {
    Bytes16(n % 0x1_0000) + Bytes16(n / 0x1_0000)
  }

  /** Reading gives back what was written, and only that. */
  lemma Le16Exactly(s: seq<byte>, i: nat, n: nat)
    requires i + 2 <= |s| && n < 0x1_0000
    ensures Le16(s, i) == n <==> s[i..i + 2] == Bytes16(n)
  {
    hide Val, ByteOf;
    var w := s[i..i + 2];
    assert w == [s[i], s[i + 1]];
    ByteOfVal(s[i]);
    ByteOfVal(s[i + 1]);
  }

  lemma Le32Exactly(s: seq<byte>, i: nat, n: nat)
    requires i + 4 <= |s| && n < U32_RANGE
    ensures Le32(s, i) == n <==> s[i..i + 4] == Bytes32(n)
  {
    hide Le16, Bytes16;
    Le16Exactly(s, i, n % 0x1_0000);
    Le16Exactly(s, i + 2, n / 0x1_0000);
    assert s[i..i + 4] == s[i..i + 2] + s[i + 2..i + 4];
    assert Bytes32(n)[..2] == Bytes16(n % 0x1_0000) && Bytes32(n)[2..] == Bytes16(n / 0x1_0000);
  }

  lemma SliceOfSlice(s: seq<byte>, from: nat, to: nat, lo: nat, hi: nat)
    requires from <= to <= |s| && lo <= hi && from + hi <= to
    ensures s[from..to][lo..hi] == s[from + lo..from + hi]
  {
    var t, u := s[from..to][lo..hi], s[from + lo..from + hi];
    assert |t| == |u|;
    forall k | 0 <= k < |t|
      ensures t[k] == u[k]
    {
      assert t[k] == s[from..to][lo + k] == s[from + lo + k];
    }
  }

  lemma SliceOfPrefix(s: seq<byte>, n: nat, a: nat, b: nat)
    requires a <= b <= n <= |s|
    ensures s[..n][a..b] == s[a..b]
  {
  }

  lemma Regroup(a: seq<byte>, b: seq<byte>, c: seq<byte>, d: seq<byte>)
    ensures a + (b + c) + d == a + b + (c + d) == a + (b + (c + d)) == (a + b) + c + d
  {
  }

  /** Concatenation of blocks. */
  function Concat(blocks: seq<seq<byte>>): seq<byte> {
    if blocks == [] then [] else Concat(blocks[..|blocks| - 1]) + blocks[|blocks| - 1]
  }

  /** The two strings agree everywhere outside [lo, hi). */
  ghost predicate SameOutside(a: seq<byte>, b: seq<byte>, lo: int, hi: int) {
    |a| == |b| && forall k :: 0 <= k < |a| && !(lo <= k < hi) ==> a[k] == b[k]
  }

  /** What lies below a change stays. */
  lemma KeptSlice(a: seq<byte>, b: seq<byte>, lo: int, hi: int, from: nat, to: nat)
    requires SameOutside(a, b, lo, hi) && from <= to <= lo && to <= |a|
    ensures b[from..to] == a[from..to]
  {
  }

  lemma JoinSlices(a: seq<byte>, from: nat, mid: nat, to: nat)
    requires from <= mid <= to <= |a|
    ensures a[from..to] == a[from..mid] + a[mid..to]
  {
  }
}
