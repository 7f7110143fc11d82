/** The NOR flash under the update layer: erasing sets a 4096-byte sector to 0xFF, programming can
    only clear bits. An operation may go wrong, and may or may not say so; it is then counted as a
    fault and may have left anything inside its own range, and nothing changed outside it. */
module Nor {
  import opened Bytes

  const SECTOR := 4096

  function SectorStart(a: nat): (r: nat)
    ensures r <= a < r + SECTOR && r % SECTOR == 0
  {
    a / SECTOR * SECTOR
  }

  /** The end of the last sector touched by bytes below a. */
  function SectorEnd(a: nat): (r: nat)
    ensures a <= r < a + SECTOR && r % SECTOR == 0
  {
    SectorStart(a + SECTOR - 1)
  }

  predicate Blank(cells: seq<byte>, lo: nat, hi: nat)
    requires lo <= hi <= |cells|
  {
    forall k :: lo <= k < hi ==> cells[k] == 0xFF
  }

  function Erased(cells: seq<byte>, a: nat): (r: seq<byte>)
    requires a + SECTOR <= |cells|
    ensures |r| == |cells| && Blank(r, a, a + SECTOR) && SameOutside(cells, r, a, a + SECTOR)
  {
    seq(|cells|, k requires 0 <= k < |cells| => if a <= k < a + SECTOR then 0xFF else cells[k])
  }

  function Programmed(cells: seq<byte>, a: nat, data: seq<byte>): (r: seq<byte>)
    requires a + |data| <= |cells|
    ensures |r| == |cells| && SameOutside(cells, r, a, a + |data|)
    ensures forall k :: a <= k < a + |data| ==> r[k] == And(cells[k], data[k - a])
  {
    seq(|cells|, k requires 0 <= k < |cells| => if a <= k < a + |data| then And(cells[k], data[k - a]) else cells[k])
  }

  /** Erased cells take the data exactly as given. */
  lemma ProgramBlank(cells: seq<byte>, a: nat, data: seq<byte>)
    requires a + |data| <= |cells| && Blank(cells, a, a + |data|)
    ensures Programmed(cells, a, data)[a..a + |data|] == data
  {
    hide And;
    forall k | 0 <= k < |data|
      ensures Programmed(cells, a, data)[a + k] == data[k]
    {
      AndBits(data[k], 0);
    }
  }

  class NorFlash {
    var cells: seq<byte>
    var faults: nat

    constructor (image: seq<byte>)
      ensures cells == image && faults == 0
    {
      cells := image;
      faults := 0;
    }

    /** Some content that differs from the present one at most inside [lo, hi). */
    method Disturb(lo: nat, hi: nat)
      requires lo <= hi <= |cells|
      modifies this
      ensures SameOutside(old(cells), cells, lo, hi) && faults == old(faults) + 1
    {
      var before := cells;
      var k := lo;
      while k < hi
        invariant lo <= k <= hi && faults == old(faults)
        invariant SameOutside(before, cells, lo, hi)
      {
        var b: byte := *;
        cells := cells[k := b];
        k := k + 1;
      }
      faults := faults + 1;
    }

    method Erase(a: nat) returns (ok: bool)
      modifies this
      ensures a % SECTOR != 0 || a + SECTOR > |old(cells)| ==>
                !ok && cells == old(cells) && faults == old(faults)
      ensures SameOutside(old(cells), cells, a, a + SECTOR) && faults >= old(faults)
      ensures a % SECTOR == 0 && a + SECTOR <= |old(cells)| && faults == old(faults) ==>
                ok && cells == Erased(old(cells), a)
    {
      if a % SECTOR != 0 || a + SECTOR > |cells| {
        return false;
      }
      if * {
        Disturb(a, a + SECTOR);
        ok := *;
      } else {
        cells := Erased(cells, a);
        ok := true;
      }
    }

    method Program(a: nat, data: seq<byte>) returns (ok: bool)
      modifies this
      ensures a + |data| > |old(cells)| ==> !ok && cells == old(cells) && faults == old(faults)
      ensures SameOutside(old(cells), cells, a, a + |data|) && faults >= old(faults)
      ensures a + |data| <= |old(cells)| && faults == old(faults) ==>
                ok && cells == Programmed(old(cells), a, data)
    {
      if a + |data| > |cells| {
        return false;
      }
      if * {
        Disturb(a, a + |data|);
        ok := *;
      } else {
        cells := Programmed(cells, a, data);
        ok := true;
      }
    }

    /** A read that says it worked gives the cells; one that fails inside the flash is a fault. */
    method Read(a: nat, n: nat) returns (ok: bool, data: seq<byte>)
      modifies this
      ensures cells == old(cells) && |data| == n && faults >= old(faults)
      ensures ok ==> a + n <= |cells| && data == cells[a..a + n]
      ensures a + n <= |cells| && faults == old(faults) ==> ok
    {
      if a + n <= |cells| {
        if * {
          return true, cells[a..a + n];
        }
        faults := faults + 1;
      }
      var junk: byte := *;
      return false, seq(n, _ => junk);
    }
  }
}
