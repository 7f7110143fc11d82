/** What activation does after a run of SlotRuns. */
module SlotActivation {
  import opened Bytes
  import opened Nor
  import opened DfuFlash
  import opened ImageHash
  import opened DfuProtocol
  import opened SlotRuns

  /** The byte holding not_ready of slot i. */
  function FlagAt(cfg: Config, base: nat, slots: seq<Slot>, i: nat): nat
    requires i < |slots|
  {
    base + slots[i].offset + cfg.authSize + cfg.flagByte
  }

  /** The first n slots have been made ready, and nothing else has changed. */
  ghost predicate OnlyFlags(cfg: Config, before: seq<byte>, after: seq<byte>, base: nat, slots: seq<Slot>, n: nat)
    requires n <= |slots|
  {
    && |after| == |before|
    && (forall i :: 0 <= i < n ==> FlagCleared(cfg, before, after, FlagAt(cfg, base, slots, i)))
    && (forall k :: 0 <= k < |before| && (forall i :: 0 <= i < n ==> k != FlagAt(cfg, base, slots, i)) ==> after[k] == before[k])
  }

  ghost predicate FlagCleared(cfg: Config, before: seq<byte>, after: seq<byte>, at: nat) {
    && at < |before| == |after|
    && after[at] == Clear(before[at], cfg.notReady) && BitsCleared(before[at], after[at], cfg.notReady)
  }

  lemma FlagsDiffer(cfg: Config, base: nat, slots: seq<Slot>, n: nat, i: nat, j: nat)
    requires i < j < n <= |slots| && LaidOut(cfg, slots, n)
    requires cfg.authSize + cfg.flagByte < cfg.headerSize
    ensures FlagAt(cfg, base, slots, i) < base + slots[i].offset + slots[i].size <= base + slots[j].offset <= FlagAt(cfg, base, slots, j)
  {
    SlotsAreDisjoint(cfg, slots, n, i, j);
    SlotLaidOut(cfg, slots, n, i);
  }

  lemma {:induction false} MadeAllReadyTouchesFlags(cfg: Config, cells: seq<byte>, base: nat, slots: seq<Slot>, n: nat)
    requires cfg.Valid(|cells|) && n <= |slots| && LaidOut(cfg, slots, n)
    requires base + SumSizes(slots, n) <= |cells|
    ensures OnlyFlags(cfg, cells, MadeAllReady(cfg, cells, base, slots, n), base, slots, n)
  {
    hide Clear, BitsCleared, SumSizes;
    if n > 0 {
      SumsGrow(slots, n - 1, n);
      MadeAllReadyTouchesFlags(cfg, cells, base, slots, n - 1);
      SlotLaidOut(cfg, slots, n, n - 1);
      ClearClears(MadeAllReady(cfg, cells, base, slots, n - 1)[FlagAt(cfg, base, slots, n - 1)], cfg.notReady);
      forall i | 0 <= i < n - 1
        ensures FlagAt(cfg, base, slots, i) < FlagAt(cfg, base, slots, n - 1)
      {
        FlagsDiffer(cfg, base, slots, n, i, n - 1);
      }
    }
  }

  /** What holds of a slot after activation: its header is ready, every other bit is as it was validated, and its
      checksum passes. */
  ghost predicate ActiveSlot(cfg: Config, cells: seq<byte>, base: nat, slot: Slot, verified: seq<byte>)
    requires cfg.Valid(|cells|)
  {
    var from, flag := base + slot.offset, cfg.authSize + cfg.flagByte;
    && from + slot.size <= |cells| && flag < slot.size == |verified|
    && OneBitCleared(verified, cells[from..from + slot.size], flag, cfg.notReady)
    && (Covered(cfg, cells, from, slot.size) ==> ChecksumHolds(cfg, cells, from))
  }

  /** Within slot i, activation does what making this one image ready would do. */
  lemma LikeMadeReady(cfg: Config, before: seq<byte>, after: seq<byte>, base: nat, slots: seq<Slot>, n: nat, i: nat)
    requires cfg.Valid(|before|) && i < n <= |slots| && LaidOut(cfg, slots, n)
    requires base + SumSizes(slots, n) <= |before| && OnlyFlags(cfg, before, after, base, slots, n)
    ensures var from := base + slots[i].offset;
            && |after| == |before| && from + slots[i].size <= |before|
            && forall k :: from <= k < from + slots[i].size ==> after[k] == MadeReady(cfg, before, from)[k]
  {
    hide Clear, BitsCleared, SumSizes, LaidOut;
    var slot := slots[i];
    var from := base + slot.offset;
    SlotLaidOut(cfg, slots, n, i);
    forall k | from <= k < from + slot.size
      ensures after[k] == MadeReady(cfg, before, from)[k]
    {
      forall j | 0 <= j < n && j != i
        ensures k != FlagAt(cfg, base, slots, j)
      {
        if j < i {
          FlagsDiffer(cfg, base, slots, n, j, i);
        } else {
          FlagsDiffer(cfg, base, slots, n, i, j);
        }
      }
      assert FlagCleared(cfg, before, after, FlagAt(cfg, base, slots, i));
    }
  }

  lemma SlotBecomesActive(cfg: Config, before: seq<byte>, after: seq<byte>, base: nat, slot: Slot, verified: seq<byte>)
    requires cfg.Valid(|before|) && |after| == |before| && slot.size >= cfg.headerSize
    requires SlotVerified(cfg, before, base, slot, verified)
    requires var from := base + slot.offset;
             forall k :: from <= k < from + slot.size ==> after[k] == MadeReady(cfg, before, from)[k]
    ensures ActiveSlot(cfg, after, base, slot, verified)
  {
    hide ChecksumHolds, HashedLength, Clear, BitsCleared;
    var from, flag := base + slot.offset, cfg.authSize + cfg.flagByte;
    var made := MadeReady(cfg, before, from);
    ClearClears(before[from + flag], cfg.notReady);
    assert after[from..from + slot.size] == made[from..from + slot.size]
        == before[from..from + slot.size][flag := Clear(before[from + flag], cfg.notReady)];
    SameLength(cfg, before, made, from);
    SameLength(cfg, made, after, from);
    VerdictIgnoresReadiness(cfg, before, from);
    if Covered(cfg, after, from, slot.size) {
      VerdictIsLocal(cfg, made, after, from);
    }
  }

  /** Activation implies verification: after any run, ACTIVE_IMAGE_RESET on sound flash makes ready exactly the
      headers of the validated slots. Each of them still has the content it was validated with, the flag apart,
      and still passes its checksum (when that covers no more than the slot); no other byte changes. */
  lemma ActivationImpliesVerification(cfg: Config, bank: Bank, b: Batch, s': Session)
    requires Inv(cfg, bank, b) && Activation(cfg, b.s, s') && b.s.flash.faults == s'.flash.faults
    ensures OnlyFlags(cfg, b.s.flash.cells, s'.flash.cells, bank.addr, b.s.slots, b.s.num)
    ensures forall i :: 0 <= i < b.s.num ==> ActiveSlot(cfg, s'.flash.cells, bank.addr, b.s.slots[i], b.verified[i])
  {
    hide LaidOut, SlotVerified, ActiveSlot, OnlyFlags, SumSizes;
    var s := b.s;
    AllHeadersInFlash(cfg, bank, b);
    MadeAllReadyTouchesFlags(cfg, s.flash.cells, bank.addr, s.slots, s.num);
    if s.num == 0 {
      assert s'.flash.cells == s.flash.cells == MadeAllReady(cfg, s.flash.cells, bank.addr, s.slots, 0);
    }
    forall i | 0 <= i < s.num
      ensures ActiveSlot(cfg, s'.flash.cells, bank.addr, s.slots[i], b.verified[i])
    {
      LikeMadeReady(cfg, s.flash.cells, s'.flash.cells, bank.addr, s.slots, s.num, i);
      SlotLaidOut(cfg, s.slots, s.num, i);
      SlotBecomesActive(cfg, s.flash.cells, s'.flash.cells, bank.addr, s.slots[i], b.verified[i]);
    }
  }

  lemma AllHeadersInFlash(cfg: Config, bank: Bank, b: Batch)
    requires Inv(cfg, bank, b)
    ensures HeadersInFlash(cfg, |b.s.flash.cells|, bank.addr, b.s.slots, b.s.num)
    ensures bank.addr + SumSizes(b.s.slots, b.s.num) <= |b.s.flash.cells|
  {
    hide LaidOut, SumSizes, AllVerified;
    forall i | 0 <= i < b.s.num
      ensures U32(bank.addr + b.s.slots[i].offset) + cfg.authSize + CTRL_HEADER_SIZE <= |b.s.flash.cells|
    {
      SlotLaidOut(cfg, b.s.slots, b.s.num, i);
    }
  }

  // ---------- what the checksum of a slot depends on ----------

  predicate SameSlot(a: seq<byte>, b: seq<byte>, from: nat, size: nat) {
    |a| == |b| && forall k :: from <= k < from + size && k < |a| ==> a[k] == b[k]
  }

  /** The length that is hashed is the one in the stored header, and nothing compares it with the one START_DFU
      announced. What is hashed is determined by the slot exactly when that length stays within the slot; otherwise
      the verdict is also about bytes of the next image. */
  lemma CoveredExactly(cfg: Config, cells: seq<byte>, header: nat, size: nat)
    requires cfg.Valid(|cells|) && HashInRange(cfg, cells, header) && cfg.headerSize <= size
    ensures Covered(cfg, cells, header, size) <==>
            forall other: seq<byte> :: SameSlot(cells, other, header, size) ==>
              HashedBytes(cfg, other, header) == HashedBytes(cfg, cells, header)
  {
    hide HashedLength, Masked;
    if Covered(cfg, cells, header, size) {
      forall other: seq<byte> | SameSlot(cells, other, header, size)
        ensures HashedBytes(cfg, other, header) == HashedBytes(cfg, cells, header)
      {
        SameLength(cfg, cells, other, header);
        var from, len := header + cfg.authSize, HashedLength(cfg, cells, header);
        assert cells[from..from + len] == other[from..from + len];
      }
    } else {
      var other := cells[header + size := Flipped(cells[header + size])];
      HashedBeyond(cfg, cells, header, size);
      assert SameSlot(cells, other, header, size);
    }
  }

  function Flipped(b: byte): (r: byte)
    ensures r != b
  {
    if b == 0 then 1 else 0
  }

  /** The first byte behind the slot is hashed. */
  lemma HashedBeyond(cfg: Config, cells: seq<byte>, header: nat, size: nat)
    requires cfg.Valid(|cells|) && HashInRange(cfg, cells, header) && cfg.headerSize <= size
    requires !Covered(cfg, cells, header, size)
    ensures header + size < |cells|
    ensures var other := cells[header + size := Flipped(cells[header + size])];
            HashedBytes(cfg, other, header) != HashedBytes(cfg, cells, header)
  {
    hide HashedLength, Clear;
    var other := cells[header + size := Flipped(cells[header + size])];
    SameLength(cfg, cells, other, header);
    assert HashedBytes(cfg, other, header)[size - cfg.authSize] != HashedBytes(cfg, cells, header)[size - cfg.authSize];
  }
}
