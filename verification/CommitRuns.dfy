/** Buffer-check sessions over faulty flash: what a client has been told was committed is in the flash. */
module CommitRuns {
  import opened Bytes
  import opened Nor
  import opened DfuFlash
  import opened ImageHash
  import opened BlockCipher
  import opened DfuProtocol
  import BufferCheck

  /** A session together with what its client has sent.
      armed:     a transfer has been set up at offset 0, by RECEIVE_FW_IMAGE_INFO or by REPORT_TARGET_INFO while the
                 resend point is 0, and nothing has disturbed it since;
      pending:   the packets since the buffer was last emptied;
      committed: the data acknowledged in this transfer, and not taken back, as it should be stored. */
  datatype Client = Client(s: Session, armed: bool, pending: seq<byte>, committed: seq<byte>)

  /** What committing these packets at this offset should store: the decrypted data, a header marked not ready. */
  function Stored(cfg: Config, packets: seq<byte>, offset: nat): seq<byte>
    requires cfg.flagByte < CTRL_HEADER_SIZE && cfg.authSize + CTRL_HEADER_SIZE <= cfg.uuidOffset
  {
    var plain := Decrypted(cfg, packets);
    if cfg.authSize + CTRL_HEADER_SIZE <= |plain| then MarkNotReady(cfg, plain, offset, |plain|) else plain
  }

  function Prefix(s: seq<byte>, n: nat): seq<byte> { if n <= |s| then s[..n] else s }

  /** What a command and its answer mean to the client. */
  function Learn(cfg: Config, c: Client, e: Event, s': Session, note: Note): Client
    requires cfg.flagByte < CTRL_HEADER_SIZE && cfg.authSize + CTRL_HEADER_SIZE <= cfg.uuidOffset
  {
    var sameBank := cfg.BankOf(s'.imageId) == cfg.BankOf(c.s.imageId);
    match e
    case Packet(data) => c.(s := s', pending := if c.s.started && !s'.rebooted then c.pending + data else c.pending)
    case ReportCrc(_, _) =>
      if Acknowledged(note) then
        c.(s := s', pending := [], committed := c.committed + Stored(cfg, c.pending, c.s.cur))
      else if RolledBack(note) then
        c.(s := s', pending := [], committed := Prefix(c.committed, note.offset))
      else c.(s := s', pending := [])
    case ReceiveInfo(_, offset) =>
      if offset == 0 then Client(s', true, [], [])
      else c.(s := s', armed := c.armed && sameBank, pending := if offset == CTRL_HEADER_SIZE then [] else c.pending)
    case ReportTarget(_) => if c.s.resend == 0 then Client(s', true, c.pending, []) else c.(s := s', armed := false)
    case _ => c.(s := s', armed := c.armed && sameBank)
  }

  /** The commands of a transfer as its client may give them: packets with buffer check on, a commit only in a
      transfer that was set up, and transfers set up at offset 0 or continued where they are. */
  predicate Allowed(c: Client, e: Event) {
    match e
    case Packet(_) => c.s.bufferCheck
    case ReportCrc(_, _) => c.armed && c.s.num < |c.s.slots| && c.s.slots[c.s.num].offset == 0
    case ReceiveInfo(_, offset) => offset == 0 || (c.armed && offset == c.s.cur)
    case CheckImage => false
    case Activate => false
    case _ => true
  }

  /** Everything a transfer relies on; faults is the flash's fault count when the run began. */
  ghost predicate Inv(cfg: Config, faults: nat, c: Client) {
    && c.s.Wf(cfg) && faults <= c.s.flash.faults
    && |c.pending| == c.s.used && c.s.buf[..c.s.used] == c.pending
    && (c.armed ==> InStep(cfg, faults, c.s, c.committed))
  }

  ghost predicate InStep(cfg: Config, faults: nat, s: Session, committed: seq<byte>) {
    var bank := cfg.BankOf(s.imageId);
    && s.cur <= bank.size && bank.addr + bank.size <= |s.flash.cells|
    && s.resend == SectorStart(s.cur)
    && |committed| == s.cur
    && s.flash.cells[bank.addr..bank.addr + s.cur] == committed
    && (s.flash.faults == faults ==> ReadyAt(s.flash.cells, bank.addr + s.cur))
  }

  lemma BankInFlash(cfg: Config, flashSize: nat, imageId: nat)
    requires cfg.Valid(flashSize)
    ensures BankFits(cfg.BankOf(imageId), flashSize)
  {
  }

  // ---------- a commit ----------

  /** The resend point is the start of the sector the transfer has reached; it is less than a sector behind, so
      the branch that recovers two sectors is never taken. */
  lemma ResendPoint(cfg: Config, faults: nat, c: Client)
    requires Inv(cfg, faults, c) && c.armed
    ensures c.s.resend % SECTOR == 0 && c.s.resend <= c.s.cur < c.s.resend + SECTOR
    ensures U32(c.s.cur - c.s.resend) < SECTOR
  {
  }

  lemma ResendMovesOn(cur: nat, length: nat)
    requires length <= BUFFER_SIZE && cur + length < U32_RANGE / 2
    ensures NextResend(SectorStart(cur), cur + length) == SectorStart(cur + length)
  {
  }

  /** The first `used` bytes of the patched buffer are the patched packets. */
  lemma MarkedPart(cfg: Config, data: seq<byte>, offset: nat, length: nat)
    requires cfg.flagByte < CTRL_HEADER_SIZE && cfg.authSize + CTRL_HEADER_SIZE <= cfg.uuidOffset
    requires cfg.authSize + CTRL_HEADER_SIZE <= |data| && length <= |data|
    ensures MarkNotReady(cfg, data, offset, length)[..length] ==
            if cfg.authSize + CTRL_HEADER_SIZE <= length then MarkNotReady(cfg, data[..length], offset, length) else data[..length]
  {
    hide Or;
  }

  lemma CommittedLength(cfg: Config, c: Client)
    requires c.s.Wf(cfg) && |c.pending| == c.s.used && c.s.buf[..c.s.used] == c.pending
    ensures |Stored(cfg, c.pending, c.s.cur)| == c.s.used
    ensures MarkNotReady(cfg, DecryptedBuffer(cfg, c.s), c.s.cur, c.s.used)[..c.s.used] == Stored(cfg, c.pending, c.s.cur)
  {
    hide Or;
    DecryptedLength(cfg, |c.s.flash.cells|, c.pending);
    MarkedPart(cfg, DecryptedBuffer(cfg, c.s), c.s.cur, c.s.used);
  }

  /** An accepted update in step with the transfer starts where the committed data ends. */
  lemma UpdatePlace(cfg: Config, flashSize: nat, imageId: nat, cur: nat, length: nat, data: seq<byte>)
    requires cfg.Valid(flashSize) && cfg.authSize + CTRL_HEADER_SIZE <= |data|
    requires cur <= cfg.BankOf(imageId).size && length <= BUFFER_SIZE
    requires Precheck(cfg, imageId, cur, length, data) == Updated
    ensures var bank := cfg.BankOf(imageId);
            && bank.addr % SECTOR == 0 && 0 < bank.addr
            && StartAddr(cfg, imageId, cur, 0) == bank.addr + cur
            && cur + length <= bank.size
            && bank.addr + cur + length + SECTOR <= U32_RANGE
            && FootprintEnd(bank.addr + cur, length) <= bank.addr + bank.size + SECTOR
            && (length > 0 ==> FootprintEnd(bank.addr + cur, length) <= bank.addr + bank.size)
  {
    BankInFlash(cfg, flashSize, imageId);
    SectorEndMonotone(cfg.BankOf(imageId).addr + cur + length, cfg.BankOf(imageId).addr + cfg.BankOf(imageId).size);
  }

  /** Storing behind the committed data keeps it. */
  lemma CommitStores(before: FlashState, base: nat, committed: seq<byte>, length: nat, data: seq<byte>, result: UpdateResult, after: FlashState)
    requires base + |committed| <= |before.cells| && before.cells[base..base + |committed|] == committed
    requires length <= BUFFER_SIZE && length <= |data|
    requires StoreEffect(before, base + |committed|, length, data, result, after)
    ensures |after.cells| == |before.cells| && after.cells[base..base + |committed|] == committed
    ensures result == Updated ==>
              base + |committed| + length <= |after.cells| &&
              after.cells[base..base + |committed| + length] == committed + data[..length]
  {
    hide FootprintEnd, ReadyAt;
    var end := base + |committed|;
    KeptSlice(before.cells, after.cells, end, FootprintEnd(end, length), base, end);
    if result == Updated {
      if length == 0 {
        assert committed + data[..0] == committed;
      } else {
        JoinSlices(after.cells, base, end, end + length);
      }
    }
  }

  lemma RecoveryKeeps(before: seq<byte>, after: seq<byte>, base: nat, committed: seq<byte>, resend: nat)
    requires resend <= |committed| && base + |committed| <= |before| && before[base..base + |committed|] == committed
    requires |after| == |before| && forall k :: 0 <= k < base + resend ==> after[k] == before[k]
    ensures after[base..base + resend] == committed[..resend]
  {
    forall k | base <= k < base + resend
      ensures after[k] == committed[..resend][k - base]
    {
      assert before[k] == before[base..base + |committed|][k - base];
    }
  }

  ghost predicate CommitStep(cfg: Config, faults: nat, c: Client, t: Outcome, s': Session, note: Note) {
    && Inv(cfg, faults, c) && c.armed
    && c.s.num < |c.s.slots| && c.s.slots[c.s.num].offset == 0
    && Commit(cfg, c.s, t, s', note)
  }

  /** What a commit whose update passed the checks has done to flash and buffer. */
  lemma CommitUpdate(cfg: Config, faults: nat, c: Client, t: Outcome, s': Session, note: Note)
    requires CommitStep(cfg, faults, c, t, s', note)
    ensures var bank := cfg.BankOf(c.s.imageId);
            var verdict := Precheck(cfg, c.s.imageId, c.s.cur, c.s.used, DecryptedBuffer(cfg, c.s));
            if verdict == Updated then
              && t.buf == MarkNotReady(cfg, DecryptedBuffer(cfg, c.s), c.s.cur, c.s.used)
              && 0 < bank.addr && bank.addr % SECTOR == 0
              && c.s.cur + c.s.used <= bank.size
              && (c.s.used > 0 ==> FootprintEnd(bank.addr + c.s.cur, c.s.used) <= bank.addr + bank.size)
              && StoreEffect(c.s.flash, bank.addr + c.s.cur, c.s.used, t.buf, t.result, t.f1)
            else t.result == verdict && t.f1 == c.s.flash
  {
    hide MarkNotReady, Precheck, DecryptedBuffer, StoreEffect, FootprintEnd;
    if Precheck(cfg, c.s.imageId, c.s.cur, c.s.used, DecryptedBuffer(cfg, c.s)) == Updated {
      UpdatePlace(cfg, |c.s.flash.cells|, c.s.imageId, c.s.cur, c.s.used, DecryptedBuffer(cfg, c.s));
    }
  }

  /** An acknowledged commit. */
  lemma CommitAdvances(cfg: Config, faults: nat, c: Client, t: Outcome, s': Session, note: Note)
    requires CommitStep(cfg, faults, c, t, s', note) && t.result == Updated
    ensures InStep(cfg, faults, s', c.committed + Stored(cfg, c.pending, c.s.cur))
    ensures s'.cur == c.s.cur + |c.pending| && s'.flash.faults >= c.s.flash.faults
  {
    hide MarkNotReady, Precheck, DecryptedBuffer, Stored, NextResend, StoreEffect, UpdateEffect, FootprintEnd, ReadyAt, SectorStart;
    var s, bank := c.s, cfg.BankOf(c.s.imageId);
    CommitUpdate(cfg, faults, c, t, s', note);
    CommittedLength(cfg, c);
    BankInFlash(cfg, |s.flash.cells|, s.imageId);
    ResendMovesOn(s.cur, s.used);
    CommitStores(s.flash, bank.addr, c.committed, s.used, t.buf, t.result, t.f1);
    if s.flash.faults == faults == t.f1.faults {
      StaysReady(s.flash, bank, s.cur, s.used, t.buf, t.f1);
    }
    FaultsGrow(s.flash, bank.addr + s.cur, s.used, t.buf, t.result, t.f1);
  }

  lemma FaultsGrow(before: FlashState, start: nat, length: nat, data: seq<byte>, result: UpdateResult, after: FlashState)
    requires length <= |data| && StoreEffect(before, start, length, data, result, after)
    ensures before.faults <= after.faults
  {
  }

  lemma StaysReady(before: FlashState, bank: Bank, cur: nat, length: nat, data: seq<byte>, after: FlashState)
    requires bank.addr % SECTOR == 0 && length <= BUFFER_SIZE && length <= |data| && bank.addr + bank.size <= |before.cells|
    requires length > 0 ==> FootprintEnd(bank.addr + cur, length) <= bank.addr + bank.size
    requires ReadyAt(before.cells, bank.addr + cur) && before.faults == after.faults
    requires StoreEffect(before, bank.addr + cur, length, data, Updated, after)
    ensures ReadyAt(after.cells, bank.addr + (cur + length))
  {
    hide Blank;
    assert bank.addr + (cur + length) == (bank.addr + cur) + length;
  }

  /** A failed commit: back to the start of the sector, and what was committed before that is still there. */
  lemma CommitRollsBack(cfg: Config, faults: nat, c: Client, t: Outcome, s': Session, note: Note)
    requires CommitStep(cfg, faults, c, t, s', note) && t.result != Updated
    ensures RolledBack(note) && note.offset == s'.cur == SectorStart(c.s.cur) <= |c.committed|
    ensures InStep(cfg, faults, s', c.committed[..s'.cur]) && InStep(cfg, s'.flash.faults, s', c.committed[..s'.cur])
    ensures s'.flash.faults >= c.s.flash.faults
  {
    hide MarkNotReady, Precheck, DecryptedBuffer, UpdateEffect, FootprintEnd, ReadyAt, SectorStart;
    var s, bank := c.s, cfg.BankOf(c.s.imageId);
    ResendPoint(cfg, faults, c);
    BankInFlash(cfg, |s.flash.cells|, s.imageId);
    CommitUpdate(cfg, faults, c, t, s', note);
    RecoveryKeeps(s.flash.cells, t.f2.cells, bank.addr, c.committed, s.resend);
    AlignedIsReady(t.f2.cells, bank.addr, s.resend);
  }

  /** The recovery gets over two faults: the client is told to send the sector again. Only a third one makes it give
      the sector up. */
  lemma RecoveryToleratesTwoFaults(cfg: Config, faults: nat, c: Client, t: Outcome, s': Session, note: Note)
    requires CommitStep(cfg, faults, c, t, s', note) && t.result != Updated
    requires cfg.KnownImage(c.s.imageId) && 0 < cfg.BankOf(c.s.imageId).addr && c.s.resend < cfg.BankOf(c.s.imageId).size
    requires s'.flash.faults < t.f1.faults + 3
    ensures note == StatusAt(ARV_PROG_ERROR, SectorStart(c.s.cur))
    ensures var a := cfg.BankOf(c.s.imageId).addr + c.s.resend;
            a + SECTOR <= |s'.flash.cells| && Blank(s'.flash.cells, a, a + SECTOR)
  {
    hide UpdateEffect, DecryptedBuffer, SectorStart, ReadyAt;
    ResendPoint(cfg, faults, c);
    BankInFlash(cfg, |c.s.flash.cells|, c.s.imageId);
    CommitKeepsShape(cfg, c.s, t, s', note);
  }

  lemma AlignedIsReady(cells: seq<byte>, base: nat, offset: nat)
    requires base % SECTOR == 0 && offset % SECTOR == 0
    ensures ReadyAt(cells, base + offset) && SectorStart(offset) == offset
  {
  }

  // ---------- runs ----------

  /** Only the flash, the offsets and the bank matter. */
  lemma InStepSame(cfg: Config, faults: nat, s: Session, s': Session, committed: seq<byte>)
    requires InStep(cfg, faults, s, committed)
    requires s'.flash == s.flash && s'.cur == s.cur && s'.resend == s.resend
    requires cfg.BankOf(s'.imageId) == cfg.BankOf(s.imageId)
    ensures InStep(cfg, faults, s', committed)
  {
    hide ReadyAt;
  }

  lemma CrcReportKeeps(cfg: Config, faults: nat, c: Client, size: nat, crc: bv16, t: Outcome, s': Session, note: Note)
    requires Inv(cfg, faults, c) && Allowed(c, ReportCrc(size, crc))
    requires CrcReport(cfg, c.s, size, crc, t, s', note)
    ensures Inv(cfg, faults, Learn(cfg, c, ReportCrc(size, crc), s', note))
  {
    hide InStep, Stored, UpdateEffect, RetryEffect, NextResend, DecryptedBuffer;
    if size <= BUFFER_SIZE && SizeAgrees(c.s, size) && CrcAgrees(c.s, crc) {
      CommitKeepsShape(cfg, c.s, t, s', note);
      if t.result == Updated {
        CommitAdvances(cfg, faults, c, t, s', note);
      } else {
        CommitRollsBack(cfg, faults, c, t, s', note);
      }
    } else if c.armed {
      InStepSame(cfg, faults, c.s, s', c.committed);
    }
  }

  lemma StartKeepsFlash(cfg: Config, s: Session, info: StartInfo, s': Session, note: Note)
    requires Start(cfg, s, info, s', note)
    ensures s'.flash == s.flash && s'.cur == s.cur && s'.resend == s.resend && s'.used == s.used && s'.buf == s.buf
  {
  }

  /** Every allowed command keeps the invariant, whatever the flash does. */
  lemma StepKeeps(cfg: Config, faults: nat, c: Client, e: Event, t: Outcome, s': Session, note: Note)
    requires Inv(cfg, faults, c) && Allowed(c, e) && Step(cfg, c.s, e, t, s', note)
    ensures Inv(cfg, faults, Learn(cfg, c, e, s', note))
  {
    StepKeepsShape(cfg, c.s, e, t, s', note);
    hide InStep, Stored, CrcReport, Start, ParseStart, Validation;
    match e
    case ReportCrc(size, crc) => CrcReportKeeps(cfg, faults, c, size, crc, t, s', note);
    case Packet(data) =>
      if c.armed {
        InStepSame(cfg, faults, c.s, s', c.committed);
      }
    case ReceiveInfo(imageId, offset) =>
      if offset == 0 {
        NothingCommitted(cfg, faults, s');
      } else if c.armed && cfg.BankOf(imageId) == cfg.BankOf(c.s.imageId) {
        Rearmed(cfg, faults, c.s, s', c.committed);
      }
    case ReportTarget(_) =>
      if c.s.resend == 0 {
        NothingCommitted(cfg, faults, s');
      }
    case StartDfu(header) =>
      StartKeepsFlash(cfg, c.s, ParseStart(cfg, |c.s.flash.cells|, header), s', note);
      if c.armed && cfg.BankOf(s'.imageId) == cfg.BankOf(c.s.imageId) {
        InStepSame(cfg, faults, c.s, s', c.committed);
      }
    case _ =>
      if c.armed && cfg.BankOf(s'.imageId) == cfg.BankOf(c.s.imageId) && s'.cur == c.s.cur {
        InStepSame(cfg, faults, c.s, s', c.committed);
      }
  }

  lemma NothingCommitted(cfg: Config, faults: nat, s: Session)
    requires s.Wf(cfg) && s.cur == 0 && s.resend == 0
    ensures InStep(cfg, faults, s, [])
  {
    BankInFlash(cfg, |s.flash.cells|, s.imageId);
  }

  /** Continuing where the transfer is; at offset 12 that also resets the resend point, to where it was. */
  lemma Rearmed(cfg: Config, faults: nat, s: Session, s': Session, committed: seq<byte>)
    requires InStep(cfg, faults, s, committed)
    requires s'.flash == s.flash && s'.cur == s.cur && cfg.BankOf(s'.imageId) == cfg.BankOf(s.imageId)
    requires s'.resend == if s.cur == CTRL_HEADER_SIZE then 0 else s.resend
    ensures InStep(cfg, faults, s', committed)
  {
    hide ReadyAt;
  }

  ghost predicate RunStep(cfg: Config, c: Client, e: Event, c': Client) {
    && c.s.Wf(cfg)
    && Allowed(c, e)
    && exists t: Outcome, note: Note :: Step(cfg, c.s, e, t, c'.s, note) && c' == Learn(cfg, c, e, c'.s, note)
  }

  /** Any number of allowed commands, packets and reports, one after the other. */
  ghost predicate Run(cfg: Config, cs: seq<Client>, es: seq<Event>) {
    && |cs| == |es| + 1
    && (es == [] || (Run(cfg, Front(cs), Front(es)) && RunStep(cfg, cs[|es| - 1], Last(es), Last(cs))))
  }

  /** Before anything has been sent. */
  lemma Initially(cfg: Config, s: Session)
    requires s.Wf(cfg) && s.used == 0
    ensures Inv(cfg, s.flash.faults, Client(s, false, [], []))
  {
  }

  /** The main result: in every run, over flash that may fail to erase, to program or to read at any time, the
      flash holds exactly the data committed in the transfer, up to the offset the client has been given, and
      the resend point is the start of the sector that offset lies in. */
  lemma {:induction false} CommittedDataIsStored(cfg: Config, faults: nat, cs: seq<Client>, es: seq<Event>)
    requires Run(cfg, cs, es) && Inv(cfg, faults, cs[0])
    ensures Inv(cfg, faults, Last(cs))
    ensures var c := Last(cs);
            var base := cfg.BankOf(c.s.imageId).addr;
            c.armed ==>
              && base + c.s.cur <= |c.s.flash.cells| && c.s.flash.cells[base..base + c.s.cur] == c.committed
              && c.s.resend == SectorStart(c.s.cur)
  {
    hide RunStep, ReadyAt;
    if es != [] {
      CommittedDataIsStored(cfg, faults, Front(cs), Front(es));
      RunStepKeeps(cfg, faults, cs[|es| - 1], Last(es), Last(cs));
    }
  }

  lemma RunStepKeeps(cfg: Config, faults: nat, c: Client, e: Event, c': Client)
    requires Inv(cfg, faults, c) && RunStep(cfg, c, e, c')
    ensures Inv(cfg, faults, c')
  {
    hide Inv, Step, Learn;
    var t: Outcome, note: Note :| Step(cfg, c.s, e, t, c'.s, note) && c' == Learn(cfg, c, e, c'.s, note);
    StepKeeps(cfg, faults, c, e, t, c'.s, note);
  }

  /** As long as the flash has not failed since the run began, every commit of data that passes the length checks
      is acknowledged: lazy erasure never leaves a commit to fail on cells that were not erased. */
  lemma GoodFlashCommits(cfg: Config, faults: nat, c: Client, t: Outcome, s': Session, note: Note)
    requires CommitStep(cfg, faults, c, t, s', note)
    requires s'.flash.faults == faults && c.pending != []
    requires Precheck(cfg, c.s.imageId, c.s.cur, c.s.used, DecryptedBuffer(cfg, c.s)) == Updated
    ensures Acknowledged(note)
  {
    hide MarkNotReady, Precheck, DecryptedBuffer, UpdateEffect, FootprintEnd, ReadyAt, SectorStart;
    CommitUpdate(cfg, faults, c, t, s', note);
    BankInFlash(cfg, |c.s.flash.cells|, c.s.imageId);
  }

  /** A rollback leaves the transfer where sound flash can go on. */
  lemma FreshAfterRollback(cfg: Config, faults: nat, c: Client, size: nat, crc: bv16, t: Outcome, s': Session, note: Note)
    requires CommitStep(cfg, faults, c, t, s', note) && t.result != Updated
    ensures var c' := Learn(cfg, c, ReportCrc(size, crc), s', note);
            Inv(cfg, s'.flash.faults, c') && c'.armed && c'.s == s'
  {
    hide InStep, UpdateEffect, RetryEffect, NextResend, DecryptedBuffer;
    CommitKeepsShape(cfg, c.s, t, s', note);
    CommitRollsBack(cfg, faults, c, t, s', note);
  }

  /** After any rollback: in any run from there, a commit that passes the length checks is acknowledged unless the
      flash has failed again since, however often it failed before. */
  lemma CommitsAgainAfterRollback(cfg: Config, faults: nat, c: Client, size: nat, crc: bv16, t: Outcome, s': Session, note: Note,
                                  cs: seq<Client>, es: seq<Event>, t2: Outcome, s2: Session, note2: Note)
    requires CommitStep(cfg, faults, c, t, s', note) && t.result != Updated
    requires Run(cfg, cs, es) && cs[0] == Learn(cfg, c, ReportCrc(size, crc), s', note)
    requires var d := Last(cs);
             && d.s.Wf(cfg) && d.armed && d.s.num < |d.s.slots| && d.s.slots[d.s.num].offset == 0 && d.pending != []
             && Precheck(cfg, d.s.imageId, d.s.cur, d.s.used, DecryptedBuffer(cfg, d.s)) == Updated
             && Commit(cfg, d.s, t2, s2, note2) && s2.flash.faults == s'.flash.faults
    ensures Acknowledged(note2)
  {
    hide RunStep, Commit, Inv, Precheck, DecryptedBuffer, Learn;
    FreshAfterRollback(cfg, faults, c, size, crc, t, s', note);
    CommittedDataIsStored(cfg, s'.flash.faults, cs, es);
    GoodFlashCommits(cfg, s'.flash.faults, Last(cs), t2, s2, note2);
  }

  /** A report that is turned down, for its size, the value or the length, changes nothing but that the buffered
      packets are to be sent again. */
  lemma RejectionKeeps(cfg: Config, s: Session, size: nat, crc: bv16, t: Outcome, s': Session, note: Note)
    requires s.Wf(cfg) && CrcReport(cfg, s, size, crc, t, s', note)
    ensures size > BUFFER_SIZE || !SizeAgrees(s, size) || !CrcAgrees(s, crc) <==> !Acknowledged(note) && !RolledBack(note)
    ensures !Acknowledged(note) && !RolledBack(note) ==> s' == s.(used := 0) && note.StatusAt? && note.offset == s.cur
  {
    hide UpdateEffect, RetryEffect, DecryptedBuffer, BufferCheck.CheckValue;
  }

  /** Data that arrives with one byte changed is turned down: the client reports the check value of what it sent. */
  lemma CorruptionIsRejected(cfg: Config, c: Client, sent: seq<byte>, i: nat, b: byte, size: nat, crc: bv16,
                             t: Outcome, s': Session, note: Note)
    requires c.s.Wf(cfg) && c.s.buf[..c.s.used] == c.pending
    requires i < |sent| && sent[i] != b && c.pending == sent[i := b]
    requires crc == BufferCheck.HalfWord(BufferCheck.CheckValue(sent).1, BufferCheck.CheckValue(sent).0)
    requires CrcReport(cfg, c.s, size, crc, t, s', note)
    ensures s' == c.s.(used := 0) && !Acknowledged(note) && !RolledBack(note)
  {
    hide UpdateEffect, RetryEffect, DecryptedBuffer, BufferCheck.CheckValue, BufferCheck.HalfWord;
    BufferCheck.OneByteIsDetected(sent, i, b);
    RejectionKeeps(cfg, c.s, size, crc, t, s', note);
  }

  /** REPORT_TARGET_INFO puts the offset back to 0 but leaves the resend point. It sets up a new transfer exactly
      when the one before has not left its first sector. */
  lemma TargetReportSetsUp(cfg: Config, faults: nat, c: Client, imageId: nat)
    requires Inv(cfg, faults, c) && c.armed
    ensures var q := c.s.(imageId := imageId, cur := 0);
            Inv(cfg, faults, Client(q, true, c.pending, [])) <==> c.s.cur < SECTOR
  {
    hide ReadyAt;
    var q := c.s.(imageId := imageId, cur := 0);
    if c.s.cur < SECTOR {
      NothingCommitted(cfg, faults, q);
    }
  }

  /** Why: a commit that then fails goes back to the resend point. That is offset 0 exactly while the transfer
      before was in its first sector; later it moves the offset forward, past data that never came. */
  lemma StaleResendPoint(cfg: Config, faults: nat, c: Client, imageId: nat, t: Outcome, s': Session, note: Note)
    requires Inv(cfg, faults, c) && c.armed
    requires var q := c.s.(imageId := imageId, cur := 0);
             q.Wf(cfg) && Commit(cfg, q, t, s', note) && t.result != Updated
    ensures s'.cur == SectorStart(c.s.cur)
    ensures s'.cur == 0 <==> c.s.cur < SECTOR
  {
    hide UpdateEffect, RetryEffect, DecryptedBuffer;
  }
}
