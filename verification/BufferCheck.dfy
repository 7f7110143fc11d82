/** The 16-bit buffer check value of subsys/dfu/dfu_flash.c: an XOR over little-endian half-words,
    byte-swapped before it is compared. */
module BufferCheck {
  import opened Bytes

  function Xor(x: byte, y: byte): byte { x ^ y }

  lemma XorCommutes(x: byte, y: byte)
    ensures Xor(x, y) == Xor(y, x) && Xor(x, 0) == x
  {
  }

  lemma XorAssociates(x: byte, y: byte, z: byte)
    ensures Xor(Xor(x, y), z) == Xor(x, Xor(y, z))
  {
  }

  lemma XorCancels(x: byte, y: byte, z: byte)
    ensures Xor(x, y) == Xor(x, z) || Xor(y, x) == Xor(z, x) ==> y == z
  {
  }

  /** XOR of the bytes at positions of one parity: lane 0 is the even positions. */
  function Lane(s: seq<byte>, lane: nat): byte
    requires lane < 2
  {
    if s == [] then 0
    else if (|s| - 1) % 2 == lane then Xor(Lane(s[..|s| - 1], lane), s[|s| - 1])
    else Lane(s[..|s| - 1], lane)
  }

  /** The check value as a pair of bytes, high byte first. */
  function CheckValue(s: seq<byte>): (byte, byte) {
    (Lane(s, 0), Lane(s, 1))
  }

  function HalfWord(lo: byte, hi: byte): bv16 { (lo as bv16) | ((hi as bv16) << 8) }

  /** The first byte is the low one. */
  lemma HalfWordBytes(lo: byte, hi: byte)
    ensures HalfWord(lo, hi) & 0xff == lo as bv16 && HalfWord(lo, hi) >> 8 == hi as bv16
  {
  }

  function Swapped(w: bv16): bv16 { ((w & 0xff) << 8) | ((w & 0xff00) >> 8) }

  lemma XorHalfWords(lo: byte, hi: byte, lo': byte, hi': byte)
    ensures HalfWord(lo, hi) ^ HalfWord(lo', hi') == HalfWord(Xor(lo, lo'), Xor(hi, hi'))
  {
  }

  lemma SwapHalfWord(lo: byte, hi: byte, lo': byte, hi': byte)
    ensures Swapped(HalfWord(lo, hi)) == HalfWord(hi, lo)
    ensures HalfWord(lo, hi) == HalfWord(lo', hi') <==> lo == lo' && hi == hi'
  {
  }

  function XorHalf(v: bv16, w: bv16): bv16 { v ^ w }

  /** dfu_check_buf_crc: accepted exactly when the length is even and the value received is the XOR of the
      even-position bytes in its high byte and of the odd-position bytes in its low byte. */
  method CheckBufCrc(buf: array<byte>, length: nat, crcVal: bv16) returns (ok: bool)
    requires length <= buf.Length
    ensures ok <==> length % 2 == 0 && crcVal == HalfWord(CheckValue(buf[..length]).1, CheckValue(buf[..length]).0)
  {
    hide Xor, HalfWord, Swapped, XorHalf;
    if length % 2 != 0 {
      return false;
    }
    var checksum16 := HalfWord(0, 0);
    var i := 0;
    assert buf[..0] == [];
    while i < length / 2
      invariant 0 <= i <= length / 2
      invariant checksum16 == HalfWord(Lane(buf[..2 * i], 0), Lane(buf[..2 * i], 1))
    {
      TwoMore(buf[..], 2 * i);
      assert buf[..][..2 * i] == buf[..2 * i] && buf[..][..2 * i + 2] == buf[..2 * (i + 1)];
      JoinHalfWords(Lane(buf[..2 * i], 0), Lane(buf[..2 * i], 1), buf[2 * i], buf[2 * i + 1]);
      checksum16 := XorHalf(checksum16, HalfWord(buf[2 * i], buf[2 * i + 1]));
      i := i + 1;
    }
    SwapHalfWord(Lane(buf[..length], 0), Lane(buf[..length], 1), 0, 0);
    ok := Swapped(checksum16) == crcVal;
  }

  lemma JoinHalfWords(lo: byte, hi: byte, lo': byte, hi': byte)
    ensures XorHalf(HalfWord(lo, hi), HalfWord(lo', hi')) == HalfWord(Xor(lo, lo'), Xor(hi, hi'))
  {
    XorHalfWords(lo, hi, lo', hi');
  }

  lemma TwoMore(s: seq<byte>, i: nat)
    requires i % 2 == 0 && i + 2 <= |s|
    ensures Lane(s[..i + 2], 0) == Xor(Lane(s[..i], 0), s[i])
    ensures Lane(s[..i + 2], 1) == Xor(Lane(s[..i], 1), s[i + 1])
  {
    hide Xor;
    assert s[..i + 2][..i + 1] == s[..i + 1];
    assert s[..i + 1][..i] == s[..i];
  }

  lemma LaneStep(s: seq<byte>, b: byte, lane: nat)
    requires lane < 2
    ensures Lane(s + [b], lane) == if |s| % 2 == lane then Xor(Lane(s, lane), b) else Lane(s, lane)
  {
    assert (s + [b])[..|s|] == s;
  }

  /** Over a concatenation whose first part has even length, the check values XOR lane by lane. */
  lemma {:induction false} CheckValueOfConcat(s: seq<byte>, t: seq<byte>, lane: nat)
    requires |s| % 2 == 0 && lane < 2
    ensures Lane(s + t, lane) == Xor(Lane(s, lane), Lane(t, lane))
  {
    hide Xor, Lane;
    if t == [] {
      assert s + t == s;
      XorCommutes(Lane(s, lane), 0);
      EmptyLane(lane);
    } else {
      var n := |t| - 1;
      assert s + t == (s + t[..n]) + [t[n]] && t == t[..n] + [t[n]];
      CheckValueOfConcat(s, t[..n], lane);
      LaneStep(s + t[..n], t[n], lane);
      LaneStep(t[..n], t[n], lane);
      XorAssociates(Lane(s, lane), Lane(t[..n], lane), t[n]);
    }
  }

  lemma EmptyLane(lane: nat)
    requires lane < 2
    ensures Lane([], lane) == 0
  {
  }

  /** Changing a byte changes the lane it lies in, and only that. */
  lemma {:induction false} LaneSeesChange(s: seq<byte>, i: nat, b: byte, lane: nat)
    requires i < |s| && s[i] != b && lane < 2
    ensures Lane(s[i := b], lane) == Lane(s, lane) <==> lane != i % 2
  {
    hide Xor;
    var n := |s| - 1;
    if i == n {
      assert s[i := b][..n] == s[..n];
      XorCancels(Lane(s[..n], lane), s[n], b);
    } else {
      assert s[i := b][..n] == s[..n][i := b];
      LaneSeesChange(s[..n], i, b, lane);
      XorCancels(s[n], Lane(s[..n], lane), Lane(s[..n][i := b], lane));
    }
  }

  /** A buffer that differs from an accepted one in exactly one byte has another check value. */
  lemma OneByteIsDetected(s: seq<byte>, i: nat, b: byte)
    requires i < |s| && s[i] != b
    ensures HalfWord(CheckValue(s[i := b]).1, CheckValue(s[i := b]).0) != HalfWord(CheckValue(s).1, CheckValue(s).0)
  {
    hide HalfWord, Xor;
    LaneSeesChange(s, i, b, i % 2);
    SwapHalfWord(Lane(s, 1), Lane(s, 0), Lane(s[i := b], 1), Lane(s[i := b], 0));
  }
}
