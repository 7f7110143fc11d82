/** What a failed commit does to the images validated before: its recovery erases from the resend point on, counted
    from the start of the bank, whichever slot the data was for. */
module SlotRecovery {
  import opened Bytes
  import opened Nor
  import opened DfuFlash
  import opened ImageHash
  import opened DfuProtocol
  import opened SlotRuns
  import BufferCheck

  /** The slot that an offset below the end of the validated slots falls into. */
  lemma {:induction false} SlotHolding(cfg: Config, slots: seq<Slot>, n: nat, x: nat) returns (i: nat)
    requires n <= |slots| && LaidOut(cfg, slots, n) && x < SumSizes(slots, n)
    ensures i < n && slots[i].offset <= x < slots[i].offset + slots[i].size
  {
    if SumSizes(slots, n - 1) <= x {
      i := n - 1;
    } else {
      i := SlotHolding(cfg, slots, n - 1, x);
    }
  }

  /** How much a recovery erases, from the resend point on. */
  function Reach(s: Session): nat {
    if U32(s.cur - s.resend) <= SECTOR then SECTOR else 2 * SECTOR
  }

  /** What a successful recovery leaves: the sectors at the resend point are erased, whatever the update had done
      before it stopped, and nothing else but the update's own place has changed. */
  lemma RecoveryErases(cfg: Config, bank: Bank, b: Batch, t: Outcome, s': Session, note: Note)
    requires Inv(cfg, bank, b) && b.recorded && Commit(cfg, b.s, t, s', note)
    requires t.result != Updated && note.StatusAt? && note.code == ARV_PROG_ERROR && b.s.resend <= bank.size
    ensures bank.addr + b.s.resend + Reach(b.s) <= |s'.flash.cells| == |b.s.flash.cells| == |t.f1.cells|
    ensures Blank(s'.flash.cells, bank.addr + b.s.resend, bank.addr + b.s.resend + Reach(b.s))
    ensures SameOutside(t.f1.cells, s'.flash.cells, bank.addr + b.s.resend, bank.addr + b.s.resend + Reach(b.s))
  {
    hide UpdateEffect, AllVerified, LaidOut, SumSizes, NewSlot, DecryptedBuffer;
    CommitKeepsShape(cfg, b.s, t, s', note);
  }

  /** The first of them is erased even if a second one cannot be recovered. */
  lemma FirstSectorErased(cfg: Config, bank: Bank, b: Batch, t: Outcome, s': Session, note: Note)
    requires Inv(cfg, bank, b) && b.recorded && Commit(cfg, b.s, t, s', note)
    requires t.result != Updated && t.ok1 && b.s.resend < bank.size
    ensures bank.addr + b.s.resend + SECTOR <= |s'.flash.cells| == |b.s.flash.cells|
    ensures Blank(s'.flash.cells, bank.addr + b.s.resend, bank.addr + b.s.resend + SECTOR)
  {
    hide UpdateEffect, AllVerified, LaidOut, SumSizes, NewSlot, DecryptedBuffer;
    CommitKeepsShape(cfg, b.s, t, s', note);
  }

  /** A validated byte that was programmed and now reads 0xFF: its image is no longer what was validated. */
  lemma ErasedByteBreaks(cfg: Config, bank: Bank, b: Batch, cells: seq<byte>, k: nat)
    requires Inv(cfg, bank, b) && |cells| == |b.s.flash.cells| && k < SumSizes(b.s.slots, b.s.num)
    requires bank.addr + k < |cells| && b.s.flash.cells[bank.addr + k] != 0xFF && cells[bank.addr + k] == 0xFF
    ensures !AllVerified(cfg, cells, bank.addr, b.s.slots, b.verified)
  {
    hide LaidOut, SumSizes, NewSlot, Covered, ChecksumHolds;
    var i := SlotHolding(cfg, b.s.slots, b.s.num, k);
    assert SlotVerified(cfg, b.s.flash.cells, bank.addr, b.s.slots[i], b.verified[i]);
    VerifiedByte(cfg, b.s.flash.cells, bank.addr, b.s.slots[i], b.verified[i], k);
    VerifiedByte(cfg, cells, bank.addr, b.s.slots[i], b.verified[i], k);
  }

  lemma VerifiedByte(cfg: Config, cells: seq<byte>, base: nat, slot: Slot, data: seq<byte>, k: nat)
    requires cfg.Valid(|cells|) && slot.offset <= k < slot.offset + slot.size
    ensures SlotVerified(cfg, cells, base, slot, data) ==>
              base + k < |cells| && k - slot.offset < |data| && cells[base + k] == data[k - slot.offset]
  {
    hide Covered, ChecksumHolds;
  }

  /** No validated byte in the sectors at the resend point is programmed. */
  predicate NothingToLose(bank: Bank, s: Session)
    requires s.num <= |s.slots| && bank.addr + SumSizes(s.slots, s.num) <= |s.flash.cells|
  {
    SumSizes(s.slots, s.num) <= s.resend || Blank(s.flash.cells, bank.addr + s.resend, bank.addr + LostEnd(s))
  }

  function LostEnd(s: Session): (end: nat)
    requires s.num <= |s.slots|
    ensures end <= SumSizes(s.slots, s.num) && (s.resend < SumSizes(s.slots, s.num) ==> s.resend < end)
  {
    if s.resend + Reach(s) < SumSizes(s.slots, s.num) then s.resend + Reach(s) else SumSizes(s.slots, s.num)
  }

  lemma ProgrammedByte(cells: seq<byte>, lo: nat, hi: nat) returns (k: nat)
    requires lo <= hi <= |cells| && !Blank(cells, lo, hi)
    ensures lo <= k < hi && cells[k] != 0xFF
  {
    k :| lo <= k < hi && cells[k] != 0xFF;
  }

  /** Erasing what is erased already changes nothing. */
  lemma NothingLost(cfg: Config, bank: Bank, b: Batch, t: Outcome, s': Session, note: Note)
    requires Inv(cfg, bank, b) && b.recorded && Commit(cfg, b.s, t, s', note)
    requires t.result != Updated && note.StatusAt? && note.code == ARV_PROG_ERROR
    requires b.s.resend <= bank.size && NothingToLose(bank, b.s)
    ensures AllVerified(cfg, s'.flash.cells, bank.addr, b.s.slots, b.verified)
  {
    hide AllVerified, LaidOut, SumSizes, UpdateEffect, NewSlot, DecryptedBuffer, NextResend, RetryEffect;
    RecoveryErases(cfg, bank, b, t, s', note);
    UpdateKeeps(cfg, bank, b, b.s.used, DecryptedBuffer(cfg, b.s), t);
    var end := bank.addr + SumSizes(b.s.slots, b.s.num);
    assert SameOutside(b.s.flash.cells, s'.flash.cells, end, |b.s.flash.cells|);
    LaterChangesKeep(cfg, b.s.flash.cells, s'.flash.cells, bank.addr, b.s.slots, b.verified, end, |b.s.flash.cells|);
  }

  /** A failed commit whose recovery succeeds leaves the batch as it should be exactly when the resend point is in
      the bank and the sectors there hold nothing validated, whichever of the validated images that would be. */
  lemma FailedCommitKeepsExactly(cfg: Config, bank: Bank, b: Batch, t: Outcome, s': Session, note: Note)
    requires Inv(cfg, bank, b) && b.recorded && Commit(cfg, b.s, t, s', note)
    requires t.result != Updated && note.StatusAt? && note.code == ARV_PROG_ERROR
    ensures Inv(cfg, bank, b.(s := s')) <==> b.s.resend <= bank.size && NothingToLose(bank, b.s)
  {
    hide AllVerified, LaidOut, SumSizes, UpdateEffect, NewSlot, DecryptedBuffer, NextResend, RetryEffect;
    CommitKeepsShape(cfg, b.s, t, s', note);
    assert s'.cur == b.s.resend && s'.slots == b.s.slots;
    if b.s.resend <= bank.size {
      if NothingToLose(bank, b.s) {
        NothingLost(cfg, bank, b, t, s', note);
      } else {
        RecoveryErases(cfg, bank, b, t, s', note);
        var k := ProgrammedByte(b.s.flash.cells, bank.addr + b.s.resend, bank.addr + LostEnd(b.s));
        ErasedByteBreaks(cfg, bank, b, s'.flash.cells, k - bank.addr);
      }
    }
  }

  /** In particular a resend point behind the validated slots does no harm, however the recovery ends, and one
      inside a programmed part of them does once its sector is recovered. */
  lemma SparedOrLost(cfg: Config, bank: Bank, b: Batch, t: Outcome, s': Session, note: Note)
    requires Inv(cfg, bank, b) && b.recorded && Commit(cfg, b.s, t, s', note) && t.result != Updated
    requires b.s.resend < SumSizes(b.s.slots, b.s.num) ==> t.ok1 && b.s.flash.cells[bank.addr + b.s.resend] != 0xFF
    ensures Inv(cfg, bank, b.(s := s')) <==> Spared(bank, b.s)
  {
    hide AllVerified, LaidOut, SumSizes, UpdateEffect, NewSlot, DecryptedBuffer, NextResend, RetryEffect;
    CommitKeepsShape(cfg, b.s, t, s', note);
    assert s'.cur == b.s.resend && s'.slots == b.s.slots;
    if Spared(bank, b.s) {
      CommitKeeps(cfg, bank, b, t, s', note);
    } else if b.s.resend <= bank.size {
      FirstSectorErased(cfg, bank, b, t, s', note);
      ErasedByteBreaks(cfg, bank, b, s'.flash.cells, b.s.resend);
    }
  }

  // ---------- what can be told before the report ----------

  /** The commit will be acknowledged if the flash works: the length checks pass, and writing may go on where the
      data belongs. */
  ghost predicate WillCommit(cfg: Config, s: Session)
    requires s.Wf(cfg) && s.num < |s.slots|
  {
    var start := StartAddr(cfg, s.imageId, s.cur, s.slots[s.num].offset);
    && Precheck(cfg, s.imageId, s.cur, s.used, DecryptedBuffer(cfg, s)) == Updated
    && ReadyAt(s.flash.cells, start)
    && FootprintEnd(start, s.used) <= |s.flash.cells|
  }

  lemma SoundCommitIsAcknowledged(cfg: Config, bank: Bank, b: Batch, t: Outcome, s': Session, note: Note)
    requires Inv(cfg, bank, b) && b.recorded && Commit(cfg, b.s, t, s', note)
    requires WillCommit(cfg, b.s) && s'.flash.faults == b.s.flash.faults
    ensures Acknowledged(note)
  {
    hide AllVerified, LaidOut, SumSizes, NewSlot, MarkNotReady, NextResend, ReadyAt, FootprintEnd, DecryptedBuffer, Precheck, StartAddr;
    UpdatePlace(cfg, bank, b, b.s.cur, b.s.used, DecryptedBuffer(cfg, b.s));
  }

  /** What a client can check before it reports: a report may be sent when a rollback would be harmless, or when the
      flash works and the commit is going to be acknowledged. */
  lemma SafeToReport(cfg: Config, bank: Bank, b: Batch, size: nat, crc: bv16, t: Outcome, s': Session, note: Note)
    requires Inv(cfg, bank, b) && b.recorded && Step(cfg, b.s, ReportCrc(size, crc), t, s', note)
    requires Spared(bank, b.s) || (WillCommit(cfg, b.s) && s'.flash.faults == b.s.flash.faults)
    ensures Allowed(cfg, bank, b, ReportCrc(size, crc), s', note)
  {
    hide AllVerified, LaidOut, SumSizes, NewSlot, WillCommit, Commit, CrcAgrees;
    if RolledBack(note) && !Spared(bank, b.s) {
      SoundCommitIsAcknowledged(cfg, bank, b, t, s', note);
    }
  }

  // ---------- a rollback without any fault ----------

  /** No fault of the flash is needed. A buffer that is not a whole number of words is refused by the update layer,
      and the recovery then succeeds, inside a validated image. */
  lemma OddReportErases(cfg: Config, bank: Bank, b: Batch, size: nat, crc: bv16, t: Outcome, s': Session, note: Note)
    requires Inv(cfg, bank, b) && b.recorded && Step(cfg, b.s, ReportCrc(size, crc), t, s', note)
    requires ReportAccepted(b.s, size, crc) && b.s.used % 4 != 0
    requires cfg.KnownImage(b.s.imageId) && b.s.resend % SECTOR == 0 && b.s.resend < SumSizes(b.s.slots, b.s.num)
    requires s'.flash.faults == b.s.flash.faults
    ensures t.result == BadLength && RolledBack(note)
    ensures bank.addr + b.s.resend + SECTOR <= |s'.flash.cells|
    ensures Blank(s'.flash.cells, bank.addr + b.s.resend, bank.addr + b.s.resend + SECTOR)
  {
    hide AllVerified, LaidOut, SumSizes, NewSlot, CrcAgrees, DecryptedBuffer, StoreEffect;
    FirstSectorErased(cfg, bank, b, t, s', note);
  }

  /** And three commands are enough: with any image validated, going to offset 0, one packet of two bytes and its
      report erase the first sector of the first image, on flash that works. */
  lemma OddPacketErasesFirstImage(cfg: Config, bank: Bank, b: Batch, imageId: nat, data: seq<byte>, t: Outcome, s': Session, note: Note)
    requires Inv(cfg, bank, b) && b.recorded && 0 < b.s.num && !b.s.rebooted && b.s.started && b.s.bufferCheck
    requires InBank(cfg, bank, imageId) && cfg.KnownImage(imageId) && |data| == 2
    requires var q := CollectPacket(Receive(b.s, imageId, 0), data);
             var (even, odd) := BufferCheck.CheckValue(data);
             Step(cfg, q, ReportCrc(2, BufferCheck.HalfWord(odd, even)), t, s', note) && s'.flash.faults == q.flash.faults
    ensures RolledBack(note) && b.s.slots[0].offset == 0 < b.s.slots[0].size
    ensures bank.addr + SECTOR <= |s'.flash.cells| && Blank(s'.flash.cells, bank.addr, bank.addr + SECTOR)
  {
    hide AllVerified, LaidOut, NewSlot, CrcReport, BufferCheck.CheckValue, BufferCheck.HalfWord;
    var q := CollectPacket(Receive(b.s, imageId, 0), data);
    var (even, odd) := BufferCheck.CheckValue(data);
    assert q.buf[..2] == data;
    SlotLaidOut(cfg, b.s.slots, b.s.num, 0);
    SumsGrow(b.s.slots, 0, b.s.num);
    OddReportErases(cfg, bank, b.(s := q), 2, BufferCheck.HalfWord(odd, even), t, s', note);
  }
}
