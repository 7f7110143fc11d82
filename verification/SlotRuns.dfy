/** Several images in one temporary bank: where their slots lie, that validated images stay as they were
    validated, and that activation touches validated images only. */
module SlotRuns {
  import opened Bytes
  import opened Nor
  import opened DfuFlash
  import opened ImageHash
  import opened DfuProtocol

  /** A single-bank session, and what has been validated in it.
      recorded: START_DFU has recorded the image now being received;
      verified: the content of each validated slot when its check passed. */
  datatype Batch = Batch(s: Session, recorded: bool, verified: seq<seq<byte>>)

  function SumSizes(slots: seq<Slot>, n: nat): nat
    requires n <= |slots|
  {
    if n == 0 then 0 else SumSizes(slots, n - 1) + slots[n - 1].size
  }

  /** The first n slots follow one another from offset 0, and each has room for a header. */
  ghost predicate LaidOut(cfg: Config, slots: seq<Slot>, n: nat)
    requires n <= |slots|
  {
    n == 0 ||
    (&& LaidOut(cfg, slots, n - 1)
     && slots[n - 1].offset == SumSizes(slots, n - 1)
     && slots[n - 1].size >= cfg.headerSize)
  }

  lemma {:induction false} SumsGrow(slots: seq<Slot>, m: nat, n: nat)
    requires m <= n <= |slots|
    ensures SumSizes(slots, m) <= SumSizes(slots, n)
  {
    if m < n {
      SumsGrow(slots, m, n - 1);
    }
  }

  lemma {:induction false} SlotLaidOut(cfg: Config, slots: seq<Slot>, n: nat, i: nat)
    requires i < n <= |slots| && LaidOut(cfg, slots, n)
    ensures slots[i].offset == SumSizes(slots, i) && slots[i].size >= cfg.headerSize
    ensures slots[i].offset + slots[i].size == SumSizes(slots, i + 1) <= SumSizes(slots, n)
  {
    if i == n - 1 {
    } else {
      SlotLaidOut(cfg, slots, n - 1, i);
      SumsGrow(slots, i + 1, n);
    }
  }

  /** Regions of different slots are disjoint, and adjacent ones touch. */
  lemma SlotsAreDisjoint(cfg: Config, slots: seq<Slot>, n: nat, i: nat, j: nat)
    requires i < j < n <= |slots| && LaidOut(cfg, slots, n)
    ensures slots[i].offset + slots[i].size <= slots[j].offset
    ensures j == i + 1 ==> slots[i].offset + slots[i].size == slots[j].offset
  {
    SlotLaidOut(cfg, slots, n, i);
    SlotLaidOut(cfg, slots, n, j);
    SumsGrow(slots, i + 1, j);
  }

  /** Recording an image in slot k leaves the slots before it where they are. */
  lemma {:induction false} EarlierSlotsStay(cfg: Config, slots: seq<Slot>, k: nat, slot: Slot, n: nat)
    requires n <= k < |slots|
    ensures SumSizes(slots[k := slot], n) == SumSizes(slots, n)
    ensures LaidOut(cfg, slots[k := slot], n) == LaidOut(cfg, slots, n)
  {
    if n > 0 {
      EarlierSlotsStay(cfg, slots, k, slot, n - 1);
    }
  }

  // ---------- where the slots lie ----------

  /** Slots lie one behind the other within the bank, the one being received included. */
  ghost predicate Placed(cfg: Config, bank: Bank, b: Batch) {
    var s := b.s;
    && s.Wf(cfg) && !cfg.bankSwitch && bank.size < U32_RANGE && |s.slots| < U8_RANGE
    && LaidOut(cfg, s.slots, s.num) && SumSizes(s.slots, s.num) <= bank.size
    && (b.recorded ==> s.num < |s.slots| && NewSlot(cfg, bank, s.slots, s.num))
  }

  ghost predicate NewSlot(cfg: Config, bank: Bank, slots: seq<Slot>, n: nat)
    requires n < |slots|
  {
    LaidOut(cfg, slots, n + 1) && SumSizes(slots, n + 1) <= bank.size
  }

  function Learn(cfg: Config, b: Batch, bank: Bank, e: Event, s': Session, note: Note): Batch {
    match e
    case StartDfu(_) => b.(s := s', recorded := b.recorded || (note == Status(ARV_SUCCESS) && !UserImage(cfg, s'.imageId)))
    case CheckImage =>
      if note == Status(ARV_SUCCESS) && !UserImage(cfg, b.s.imageId) && b.s.num < |b.s.slots| then
        var slot := b.s.slots[b.s.num];
        Batch(s', false, b.verified + [Region(b.s.flash.cells, bank.addr + slot.offset, slot.size)])
      else b.(s := s')
    case _ => b.(s := s')
  }

  function Region(cells: seq<byte>, from: nat, size: nat): seq<byte> {
    if from + size <= |cells| then cells[from..from + size] else []
  }

  /** All that the places of the slots depend on: an image recorded by START_DFU has room in the bank, and none is
      checked before it has been recorded. */
  ghost predicate Placing(cfg: Config, bank: Bank, b: Batch, e: Event)
    requires b.s.Wf(cfg)
  {
    match e
    case StartDfu(header) =>
      && |header| == 16
      && var info := ParseStart(cfg, |b.s.flash.cells|, header);
      Records(cfg, info) ==> SumSizes(b.s.slots, b.s.num) + info.payloadLen + cfg.headerSize <= bank.size
    case CheckImage => b.recorded || UserImage(cfg, b.s.imageId)
    case _ => true
  }

  /** The slots closed by s are still there in s'. */
  predicate SlotsKept(s: Session, s': Session) {
    s.num <= s'.num <= |s'.slots| && s.num <= |s.slots| && s'.slots[..s.num] == s.slots[..s.num]
  }

  lemma StartPlaces(cfg: Config, bank: Bank, b: Batch, info: StartInfo, s': Session, note: Note)
    requires Placed(cfg, bank, b) && Start(cfg, b.s, info, s', note) && s'.Wf(cfg)
    requires Records(cfg, info) ==> SumSizes(b.s.slots, b.s.num) + info.payloadLen + cfg.headerSize <= bank.size
    ensures Placed(cfg, bank, b.(s := s', recorded := b.recorded || (note == Status(ARV_SUCCESS) && !UserImage(cfg, s'.imageId))))
    ensures SlotsKept(b.s, s')
  {
    hide LaidOut, SumSizes, SlotFor;
    if Records(cfg, info) {
      var slot := SlotFor(b.s, info.imageId, U32(info.payloadLen + cfg.headerSize));
      NextOffset(cfg, bank, b.s, info.imageId, info.payloadLen + cfg.headerSize);
      RecordSlot(cfg, b.s.slots, b.s.num, slot);
    }
  }

  /** The new slot starts where the last validated one ends. */
  lemma NextOffset(cfg: Config, bank: Bank, s: Session, imageId: nat, size: nat)
    requires s.num <= |s.slots| && LaidOut(cfg, s.slots, s.num) && SumSizes(s.slots, s.num) + size <= bank.size < U32_RANGE
    ensures SlotFor(s, imageId, size) == Slot(imageId, size, SumSizes(s.slots, s.num))
  {
  }

  lemma RecordSlot(cfg: Config, slots: seq<Slot>, k: nat, slot: Slot)
    requires k < |slots| && LaidOut(cfg, slots, k)
    requires slot.offset == SumSizes(slots, k) && slot.size >= cfg.headerSize
    ensures LaidOut(cfg, slots[k := slot], k) && LaidOut(cfg, slots[k := slot], k + 1)
    ensures SumSizes(slots[k := slot], k) == SumSizes(slots, k)
    ensures SumSizes(slots[k := slot], k + 1) == SumSizes(slots, k) + slot.size
  {
    EarlierSlotsStay(cfg, slots, k, slot, k);
  }

  /** No packet, report, commit, recovery or activation concerns the slots. */
  lemma SlotsUntouched(cfg: Config, s: Session, e: Event, t: Outcome, s': Session, note: Note)
    requires s.Wf(cfg) && Step(cfg, s, e, t, s', note) && !e.StartDfu? && !e.CheckImage?
    ensures s'.slots == s.slots && s'.num == s.num
  {
    hide UpdateEffect, RetryEffect, CrcAgrees, Decrypted, DecryptedBuffer, ReadiedFirst, Store;
  }

  /** Every command keeps the slots in place, whatever flash and commits do. */
  lemma StepPlaces(cfg: Config, bank: Bank, b: Batch, e: Event, t: Outcome, s': Session, note: Note)
    requires Placed(cfg, bank, b) && Step(cfg, b.s, e, t, s', note) && Placing(cfg, bank, b, e)
    ensures Placed(cfg, bank, Learn(cfg, b, bank, e, s', note)) && SlotsKept(b.s, s')
  {
    StepKeepsShape(cfg, b.s, e, t, s', note);
    if !e.StartDfu? && !e.CheckImage? {
      SlotsUntouched(cfg, b.s, e, t, s', note);
    }
    hide LaidOut, SumSizes, Commit, PlainPacket, CrcReport, Activation, Start, ParseStart, CheckEffect, Region;
    match e
    case StartDfu(header) => StartPlaces(cfg, bank, b, ParseStart(cfg, |b.s.flash.cells|, header), s', note);
    case _ =>
  }

  ghost predicate PlacingStep(cfg: Config, bank: Bank, b: Batch, e: Event, b': Batch) {
    && b.s.Wf(cfg) && Placing(cfg, bank, b, e)
    && exists t: Outcome, note: Note :: Step(cfg, b.s, e, t, b'.s, note) && b' == Learn(cfg, b, bank, e, b'.s, note)
  }

  ghost predicate PlacingRun(cfg: Config, bank: Bank, bs: seq<Batch>, es: seq<Event>) {
    && |bs| == |es| + 1
    && (es == [] || (PlacingRun(cfg, bank, Front(bs), Front(es)) && PlacingStep(cfg, bank, bs[|es| - 1], Last(es), Last(bs))))
  }

  lemma PlacingStepPlaces(cfg: Config, bank: Bank, b: Batch, e: Event, b': Batch)
    requires Placed(cfg, bank, b) && PlacingStep(cfg, bank, b, e, b')
    ensures Placed(cfg, bank, b') && SlotsKept(b.s, b'.s)
  {
    hide Step, Learn, LaidOut, SumSizes, NewSlot, Placing;
    var t: Outcome, note: Note :| Step(cfg, b.s, e, t, b'.s, note) && b' == Learn(cfg, b, bank, e, b'.s, note);
    StepPlaces(cfg, bank, b, e, t, b'.s, note);
  }

  lemma KeptTransitive(a: Session, b: Session, c: Session)
    requires SlotsKept(a, b) && SlotsKept(b, c)
    ensures SlotsKept(a, c)
  {
    assert c.slots[..a.num] == c.slots[..b.num][..a.num] == b.slots[..b.num][..a.num] == b.slots[..a.num];
  }

  /** Slot allocation: in every run within the bank's capacity, over flash that may fail anywhere and with any
      commits failing, the offset of each slot is the sum of the sizes before it, and a closed slot never moves. */
  lemma {:induction false} SlotsStayInPlace(cfg: Config, bank: Bank, bs: seq<Batch>, es: seq<Event>)
    requires PlacingRun(cfg, bank, bs, es) && Placed(cfg, bank, bs[0])
    ensures Placed(cfg, bank, Last(bs)) && SlotsKept(bs[0].s, Last(bs).s)
    ensures var s := Last(bs).s;
            forall i :: 0 <= i < s.num ==> s.slots[i].offset == SumSizes(s.slots, i)
  {
    hide PlacingStep, LaidOut, SumSizes, NewSlot;
    if es == [] {
    } else {
      SlotsStayInPlace(cfg, bank, Front(bs), Front(es));
      PlacingStepPlaces(cfg, bank, bs[|es| - 1], Last(es), Last(bs));
      KeptTransitive(bs[0].s, bs[|es| - 1].s, Last(bs).s);
    }
    var s := Last(bs).s;
    forall i | 0 <= i < s.num
      ensures s.slots[i].offset == SumSizes(s.slots, i)
    {
      SlotLaidOut(cfg, s.slots, s.num, i);
    }
  }

  // ---------- validated slots ----------

  /** What the checksum covers lies inside the slot. */
  predicate Covered(cfg: Config, cells: seq<byte>, header: nat, size: nat)
    requires cfg.authSize <= cfg.formatSize
  {
    HashInRange(cfg, cells, header) && cfg.authSize + HashedLength(cfg, cells, header) <= size
  }

  /** The slot holds this content, and its checksum passes. */
  ghost predicate SlotVerified(cfg: Config, cells: seq<byte>, base: nat, slot: Slot, data: seq<byte>)
    requires cfg.Valid(|cells|)
  {
    var from := base + slot.offset;
    && from + slot.size <= |cells|
    && cells[from..from + slot.size] == data
    && (Covered(cfg, cells, from, slot.size) ==> ChecksumHolds(cfg, cells, from))
  }

  ghost predicate AllVerified(cfg: Config, cells: seq<byte>, base: nat, slots: seq<Slot>, verified: seq<seq<byte>>)
    requires cfg.Valid(|cells|) && |verified| <= |slots|
  {
    forall i :: 0 <= i < |verified| ==> SlotVerified(cfg, cells, base, slots[i], verified[i])
  }

  /** A slot stays verified as long as its own bytes stay. */
  lemma VerifiedIsLocal(cfg: Config, a: seq<byte>, b: seq<byte>, base: nat, slot: Slot, data: seq<byte>)
    requires cfg.Valid(|a|) && |a| == |b| && cfg.headerSize <= slot.size
    requires SlotVerified(cfg, a, base, slot, data)
    requires forall k :: base + slot.offset <= k < base + slot.offset + slot.size ==> a[k] == b[k]
    ensures SlotVerified(cfg, b, base, slot, data)
  {
    hide HashedLength, ChecksumHolds;
    var from := base + slot.offset;
    assert b[from..from + slot.size] == a[from..from + slot.size];
    SameLength(cfg, a, b, from);
    if Covered(cfg, b, from, slot.size) {
      VerdictIsLocal(cfg, a, b, from);
    }
  }

  /** Changes behind the validated slots do not matter to them. */
  lemma LaterChangesKeep(cfg: Config, a: seq<byte>, b: seq<byte>, base: nat, slots: seq<Slot>, verified: seq<seq<byte>>, lo: nat, hi: int)
    requires cfg.Valid(|a|) && |verified| <= |slots| && LaidOut(cfg, slots, |verified|)
    requires AllVerified(cfg, a, base, slots, verified)
    requires SameOutside(a, b, lo, hi) && base + SumSizes(slots, |verified|) <= lo
    ensures AllVerified(cfg, b, base, slots, verified)
  {
    hide LaidOut, Covered, ChecksumHolds;
    forall i | 0 <= i < |verified|
      ensures SlotVerified(cfg, b, base, slots[i], verified[i])
    {
      SlotLaidOut(cfg, slots, |verified|, i);
      VerifiedIsLocal(cfg, a, b, base, slots[i], verified[i]);
    }
  }

  // ---------- the invariant ----------

  predicate InBank(cfg: Config, bank: Bank, imageId: nat) {
    cfg.BankOf(imageId) == bank && !UserImage(cfg, imageId)
  }

  ghost predicate Inv(cfg: Config, bank: Bank, b: Batch) {
    var s := b.s;
    && Placed(cfg, bank, b)
    && BankFits(bank, |s.flash.cells|) && 0 < bank.addr
    && |b.verified| == s.num && s.cur <= bank.size
    && (0 < s.num || b.recorded ==> InBank(cfg, bank, s.imageId))
    && (b.recorded ==> InBank(cfg, bank, s.slots[s.num].imageId))
    && AllVerified(cfg, s.flash.cells, bank.addr, s.slots, b.verified)
  }

  /** The recovery of a failed commit erases from the resend point on, counted from the start of the bank and not
      of the slot. Behind the validated slots it does them no harm. */
  predicate Spared(bank: Bank, s: Session)
    requires s.num <= |s.slots|
  {
    SumSizes(s.slots, s.num) <= s.resend <= bank.size
  }

  /** The commands of a batch: images of this bank, each with room in it and recorded by START_DFU before its data
      and its check; no flash fault during a check; and no failed commit unless its recovery spares what has been
      validated (SlotRecovery says when that can be told beforehand, and what happens otherwise). */
  ghost predicate Allowed(cfg: Config, bank: Bank, b: Batch, e: Event, s': Session, note: Note)
    requires b.s.Wf(cfg)
  {
    && Placing(cfg, bank, b, e)
    && match e
       case Packet(_) => b.s.bufferCheck || b.recorded
       case StartDfu(header) => InBank(cfg, bank, ParseStart(cfg, |b.s.flash.cells|, header).imageId)
       case ReceiveInfo(imageId, offset) => InBank(cfg, bank, imageId) && offset <= bank.size
       case ReportTarget(imageId) => InBank(cfg, bank, imageId)
       case SelectImage(imageId) => InBank(cfg, bank, imageId)
       case EnableBufferCheck => true
       case ReportCrc(_, _) => b.recorded && (RolledBack(note) ==> Spared(bank, b.s))
       case CheckImage => b.recorded && b.s.flash.faults == s'.flash.faults
       case Activate => false
  }

  // ---------- steps ----------

  /** Data for the image now being received goes behind all validated slots. */
  lemma UpdatePlace(cfg: Config, bank: Bank, b: Batch, cur: nat, length: nat, data: seq<byte>)
    requires Inv(cfg, bank, b) && b.recorded && cur <= bank.size && length <= |data|
    requires cfg.authSize + CTRL_HEADER_SIZE <= |data|
    requires Precheck(cfg, b.s.imageId, cur, length, data) == Updated && length <= BUFFER_SIZE
    ensures var start := StartAddr(cfg, b.s.imageId, cur, b.s.slots[b.s.num].offset);
            && cur + length <= bank.size
            && start == bank.addr + b.s.slots[b.s.num].offset + cur
            && start + length + SECTOR <= U32_RANGE
  {
    hide AllVerified;
    SlotLaidOut(cfg, b.s.slots, b.s.num + 1, b.s.num);
  }

  lemma UpdateKeeps(cfg: Config, bank: Bank, b: Batch, length: nat, data: seq<byte>, t: Outcome)
    requires Inv(cfg, bank, b) && b.recorded && length <= BUFFER_SIZE == |data|
    requires UpdateEffect(cfg, b.s.flash, b.s.imageId, b.s.cur, b.s.slots[b.s.num].offset, length, data, t.result, t.f1, t.buf)
    ensures SameOutside(b.s.flash.cells, t.f1.cells, bank.addr + SumSizes(b.s.slots, b.s.num), |b.s.flash.cells|)
    ensures AllVerified(cfg, t.f1.cells, bank.addr, b.s.slots, b.verified)
    ensures t.result == Updated ==> b.s.cur + length <= bank.size
  {
    hide AllVerified, LaidOut, FootprintEnd, ReadyAt, MarkNotReady;
    var s := b.s;
    if Precheck(cfg, s.imageId, s.cur, length, data) == Updated {
      UpdatePlace(cfg, bank, b, s.cur, length, data);
      SlotLaidOut(cfg, s.slots, s.num + 1, s.num);
      var start := bank.addr + s.slots[s.num].offset + s.cur;
      LaterChangesKeep(cfg, s.flash.cells, t.f1.cells, bank.addr, s.slots, b.verified, start, FootprintEnd(start, length));
    }
  }

  /** Recovering a sector behind the validated slots. */
  lemma RecoveryKeeps(cfg: Config, bank: Bank, b: Batch, before: FlashState, offset: nat, ok: bool, after: FlashState)
    requires Inv(cfg, bank, b) && b.recorded && |before.cells| == |b.s.flash.cells|
    requires AllVerified(cfg, before.cells, bank.addr, b.s.slots, b.verified)
    requires RetryEffect(cfg, before, b.s.imageId, offset, ok, after)
    requires SumSizes(b.s.slots, b.s.num) <= offset <= bank.size + SECTOR
    ensures |after.cells| == |before.cells| && AllVerified(cfg, after.cells, bank.addr, b.s.slots, b.verified)
  {
    hide AllVerified, LaidOut, SumSizes, NewSlot;
    var a := bank.addr + offset;
    LaterChangesKeep(cfg, before.cells, after.cells, bank.addr, b.s.slots, b.verified, a, a + SECTOR);
  }

  lemma CommitKeeps(cfg: Config, bank: Bank, b: Batch, t: Outcome, s': Session, note: Note)
    requires Inv(cfg, bank, b) && b.recorded && Commit(cfg, b.s, t, s', note)
    requires RolledBack(note) ==> Spared(bank, b.s)
    ensures Inv(cfg, bank, b.(s := s'))
  {
    hide AllVerified, LaidOut, SumSizes, UpdateEffect, RetryEffect, NextResend, DecryptedBuffer, NewSlot;
    CommitKeepsShape(cfg, b.s, t, s', note);
    UpdateKeeps(cfg, bank, b, b.s.used, DecryptedBuffer(cfg, b.s), t);
    if t.result != Updated {
      RecoveryKeeps(cfg, bank, b, t.f1, b.s.resend, t.ok1, t.f2);
      if t.ok1 && U32(b.s.cur - b.s.resend) > SECTOR {
        RecoveryKeeps(cfg, bank, b, t.f2, b.s.resend + SECTOR, t.ok2, t.f3);
      }
    }
  }

  lemma PlainKeeps(cfg: Config, bank: Bank, b: Batch, data: seq<byte>, t: Outcome, s': Session)
    requires Inv(cfg, bank, b) && b.recorded && PlainPacket(cfg, b.s, data, t, s')
    ensures Inv(cfg, bank, b.(s := s'))
  {
    hide AllVerified, LaidOut, SumSizes, UpdateEffect, Decrypted, NewSlot, MarkNotReady;
    if !PlainRefused(b.s, data) {
      var plain := Decrypted(cfg, data);
      var q := b.s.(buf := Store(b.s.buf, b.s.used, plain), used := b.s.used + |data|);
      if PlainFlushes(q) {
        UpdateShape(cfg, q.flash, q.imageId, q.cur, q.slots[q.num].offset, q.used, q.buf, t);
        UpdateKeeps(cfg, bank, b.(s := q), q.used, q.buf, t);
      }
    }
  }

  lemma UpdateShape(cfg: Config, before: FlashState, imageId: nat, offset: nat, totalOffset: nat, length: nat, data: seq<byte>, t: Outcome)
    requires cfg.authSize + CTRL_HEADER_SIZE <= |data| && cfg.flagByte < CTRL_HEADER_SIZE && length <= |data|
    requires UpdateEffect(cfg, before, imageId, offset, totalOffset, length, data, t.result, t.f1, t.buf)
    ensures |t.buf| == |data| && |t.f1.cells| == |before.cells|
  {
    hide StoreEffect, Precheck;
  }

  lemma StartKeeps(cfg: Config, bank: Bank, b: Batch, info: StartInfo, s': Session, note: Note)
    requires Inv(cfg, bank, b) && Start(cfg, b.s, info, s', note) && s'.Wf(cfg) && InBank(cfg, bank, info.imageId)
    requires Records(cfg, info) ==> SumSizes(b.s.slots, b.s.num) + info.payloadLen + cfg.headerSize <= bank.size
    ensures Inv(cfg, bank, b.(s := s', recorded := b.recorded || (note == Status(ARV_SUCCESS) && !UserImage(cfg, s'.imageId))))
    ensures note == Status(ARV_SUCCESS) ==>
              s'.slots == b.s.slots[b.s.num := Slot(info.imageId, info.payloadLen + cfg.headerSize, SumSizes(b.s.slots, b.s.num))]
  {
    hide AllVerified, LaidOut, SumSizes, SlotFor, NewSlot;
    StartPlaces(cfg, bank, b, info, s', note);
    if note == Status(ARV_SUCCESS) {
      NextOffset(cfg, bank, b.s, info.imageId, info.payloadLen + cfg.headerSize);
    }
    SameSlotsVerified(cfg, b.s.flash.cells, bank.addr, b.s.slots, s'.slots, b.verified);
  }

  lemma SameSlotsVerified(cfg: Config, cells: seq<byte>, base: nat, slots: seq<Slot>, slots': seq<Slot>, verified: seq<seq<byte>>)
    requires cfg.Valid(|cells|) && |verified| <= |slots| && |verified| <= |slots'|
    requires forall i :: 0 <= i < |verified| ==> slots[i] == slots'[i]
    requires AllVerified(cfg, cells, base, slots, verified)
    ensures AllVerified(cfg, cells, base, slots', verified)
  {
    hide SlotVerified;
  }

  /** A check that passes without a flash fault has verified the slot. */
  lemma CheckVerifies(cfg: Config, bank: Bank, before: FlashState, slot: Slot, ok: bool, after: FlashState)
    requires cfg.Valid(|before.cells|) && !cfg.bankSwitch && cfg.BankOf(slot.imageId) == bank && 0 < bank.addr
    requires bank.addr + slot.offset + slot.size <= |before.cells|
    requires CheckEffect(cfg, before, slot.imageId, slot.offset, ok, after) && before.faults == after.faults
    ensures after == before
    ensures ok ==> SlotVerified(cfg, after.cells, bank.addr, slot, Region(before.cells, bank.addr + slot.offset, slot.size))
  {
    hide ChecksumHolds, HashInRange;
  }

  lemma OneMoreVerified(cfg: Config, cells: seq<byte>, base: nat, slots: seq<Slot>, verified: seq<seq<byte>>, data: seq<byte>)
    requires cfg.Valid(|cells|) && |verified| < |slots|
    requires AllVerified(cfg, cells, base, slots, verified) && SlotVerified(cfg, cells, base, slots[|verified|], data)
    ensures AllVerified(cfg, cells, base, slots, verified + [data])
  {
    hide SlotVerified;
  }

  lemma CheckKeeps(cfg: Config, bank: Bank, b: Batch, ok: bool, f: FlashState, s': Session, note: Note)
    requires Inv(cfg, bank, b) && b.recorded && Validation(cfg, b.s, ok, f, s', note)
    requires b.s.flash.faults == s'.flash.faults
    requires Placed(cfg, bank, Learn(cfg, b, bank, CheckImage, s', note))
    ensures Inv(cfg, bank, Learn(cfg, b, bank, CheckImage, s', note))
  {
    hide AllVerified, LaidOut, SumSizes, CheckEffect, SlotVerified, Region;
    var s := b.s;
    var slot := s.slots[s.num];
    SlotLaidOut(cfg, s.slots, s.num + 1, s.num);
    CheckVerifies(cfg, bank, s.flash, slot, ok, f);
    if ok {
      OneMoreVerified(cfg, f.cells, bank.addr, s.slots, b.verified, Region(s.flash.cells, bank.addr + slot.offset, slot.size));
    }
  }

  /** Every allowed command keeps the invariant. */
  lemma StepKeeps(cfg: Config, bank: Bank, b: Batch, e: Event, t: Outcome, s': Session, note: Note)
    requires Inv(cfg, bank, b) && Step(cfg, b.s, e, t, s', note) && Allowed(cfg, bank, b, e, s', note)
    ensures Inv(cfg, bank, Learn(cfg, b, bank, e, s', note)) && SlotsKept(b.s, s')
  {
    StepKeepsShape(cfg, b.s, e, t, s', note);
    StepPlaces(cfg, bank, b, e, t, s', note);
    hide AllVerified, LaidOut, SumSizes, NewSlot, Commit, PlainPacket, Start, ParseStart, Validation, CrcAgrees, SlotsKept;
    match e
    case Packet(data) =>
      if b.s.started && !b.s.bufferCheck {
        PlainKeeps(cfg, bank, b, data, t, s');
      }
    case StartDfu(header) => StartKeeps(cfg, bank, b, ParseStart(cfg, |b.s.flash.cells|, header), s', note);
    case ReportCrc(size, crc) =>
      if ReportAccepted(b.s, size, crc) {
        CommitKeeps(cfg, bank, b, t, s', note);
      }
    case CheckImage => CheckKeeps(cfg, bank, b, t.ok1, t.f1, s', note);
    case _ =>
  }

  // ---------- runs ----------

  ghost predicate RunStep(cfg: Config, bank: Bank, b: Batch, e: Event, b': Batch) {
    && b.s.Wf(cfg)
    && exists t: Outcome, note: Note ::
         Step(cfg, b.s, e, t, b'.s, note) && Allowed(cfg, bank, b, e, b'.s, note) && b' == Learn(cfg, b, bank, e, b'.s, note)
  }

  ghost predicate Run(cfg: Config, bank: Bank, bs: seq<Batch>, es: seq<Event>) {
    && |bs| == |es| + 1
    && (es == [] || (Run(cfg, bank, Front(bs), Front(es)) && RunStep(cfg, bank, bs[|es| - 1], Last(es), Last(bs))))
  }

  /** After a reset of the service. */
  predicate Initial(s: Session) {
    s.num == 0 && s.cur == 0 && s.resend == 0 && s.used == 0 && !s.rebooted
  }

  lemma Initially(cfg: Config, bank: Bank, s: Session)
    requires s.Wf(cfg) && !cfg.bankSwitch && BankFits(bank, |s.flash.cells|) && 0 < bank.addr && |s.slots| < U8_RANGE
    requires Initial(s)
    ensures Inv(cfg, bank, Batch(s, false, []))
  {
  }

  /** In every run, slots lie one behind the other and every validated slot still is as it was validated. */
  lemma {:induction false} ValidatedImagesStay(cfg: Config, bank: Bank, bs: seq<Batch>, es: seq<Event>)
    requires Run(cfg, bank, bs, es) && Inv(cfg, bank, bs[0])
    ensures Inv(cfg, bank, Last(bs))
    ensures SlotsKept(bs[0].s, Last(bs).s) && bs[0].verified <= Last(bs).verified
  {
    hide RunStep, Inv;
    if es == [] {
      InvShape(cfg, bank, bs[0]);
    } else {
      ValidatedImagesStay(cfg, bank, Front(bs), Front(es));
      RunStepKeeps(cfg, bank, bs[|es| - 1], Last(es), Last(bs));
      KeptTransitive(bs[0].s, bs[|es| - 1].s, Last(bs).s);
    }
  }

  lemma InvShape(cfg: Config, bank: Bank, b: Batch)
    requires Inv(cfg, bank, b)
    ensures SlotsKept(b.s, b.s)
  {
  }

  lemma RunStepKeeps(cfg: Config, bank: Bank, b: Batch, e: Event, b': Batch)
    requires Inv(cfg, bank, b) && RunStep(cfg, bank, b, e, b')
    ensures Inv(cfg, bank, b') && SlotsKept(b.s, b'.s) && b.verified <= b'.verified
  {
    hide Step, Allowed, SlotsKept, Inv, UserImage, Region;
    var t: Outcome, note: Note :|
      Step(cfg, b.s, e, t, b'.s, note) && Allowed(cfg, bank, b, e, b'.s, note) && b' == Learn(cfg, b, bank, e, b'.s, note);
    StepKeeps(cfg, bank, b, e, t, b'.s, note);
  }
}
