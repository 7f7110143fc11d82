/** What the runs of CommitRuns and PlainRuns mean to a client that knows the image in the clear: it sends every
    piece encrypted, if the device expects that, and the image in the clear is what the flash ends up with. */
module SealedRuns {
  import opened Bytes
  import opened Nor
  import opened DfuFlash
  import opened BlockCipher
  import opened DfuProtocol
  import CommitRuns
  import PlainRuns

  // ---------- buffer-check sessions ----------

  /** A client of CommitRuns, and in the clear:
      plain: the data acknowledged in this transfer, and not taken back;
      first: the length of the piece committed at offset 0. */
  datatype Sender = Sender(c: CommitRuns.Client, plain: seq<byte>, first: nat)

  /** What a command and its answer mean to the sender; piece is what it sent since the buffer was last emptied. */
  function Learn(a: Sender, e: Event, c': CommitRuns.Client, note: Note, piece: seq<byte>): Sender {
    match e
    case ReportCrc(_, _) =>
      if Acknowledged(note) then Sender(c', a.plain + piece, if a.c.s.cur == 0 then |piece| else a.first)
      else if RolledBack(note) then Sender(c', CommitRuns.Prefix(a.plain, note.offset), a.first)
      else a.(c := c')
    case ReceiveInfo(_, offset) => if offset == 0 then Sender(c', [], 0) else a.(c := c')
    case ReportTarget(_) => if a.c.s.resend == 0 then Sender(c', [], 0) else a.(c := c')
    case _ => a.(c := c')
  }

  /** The announced size of a header in front of this data fits the bank. */
  ghost predicate FitsBank(cfg: Config, bank: Bank, data: seq<byte>) {
    forall n: nat :: Announces(cfg, data, 0, n) ==> U32(n + cfg.headerSize) <= bank.size
  }

  /** The data committed is the data in the clear, marked not ready if its first piece carried the image header,
      and it announces no more than the bank holds if that piece carried the control header. */
  ghost predicate Kept(cfg: Config, a: Sender) {
    && StoredAs(cfg, a.plain, a.first > cfg.uuidOffset, a.c.committed)
    && a.first <= BUFFER_SIZE
    && (a.plain != [] ==> a.first <= |a.plain|)
    && (a.plain != [] && cfg.authSize + CTRL_HEADER_SIZE <= a.first ==> FitsBank(cfg, cfg.BankOf(a.c.s.imageId), a.plain))
  }

  ghost predicate Inv(cfg: Config, faults: nat, a: Sender) {
    && CommitRuns.Inv(cfg, faults, a.c)
    && (a.c.armed ==> Kept(cfg, a))
  }

  lemma StoredPiece(cfg: Config, piece: seq<byte>, packets: seq<byte>, offset: nat)
    requires cfg.flagByte < CTRL_HEADER_SIZE && cfg.authSize + CTRL_HEADER_SIZE <= cfg.uuidOffset
    requires Decrypted(cfg, packets) == piece
    ensures StoredAs(cfg, piece, offset == 0 && |piece| > cfg.uuidOffset, CommitRuns.Stored(cfg, packets, offset))
  {
    hide MarkNotReady, BitsSet, Decrypted;
    if cfg.authSize + CTRL_HEADER_SIZE <= |piece| {
      MarkedAs(cfg, piece, offset, |piece|);
    }
  }

  lemma StoredJoins(cfg: Config, plain: seq<byte>, marked: bool, stored: seq<byte>, piece: seq<byte>, more: seq<byte>)
    requires StoredAs(cfg, plain, marked, stored) && StoredAs(cfg, piece, false, more)
    requires marked ==> cfg.authSize + cfg.flagByte < |plain|
    ensures StoredAs(cfg, plain + piece, marked, stored + more)
  {
    hide BitsSet;
  }

  lemma StoredFront(cfg: Config, plain: seq<byte>, marked: bool, stored: seq<byte>, n: nat)
    requires StoredAs(cfg, plain, marked, stored) && n <= |plain|
    ensures StoredAs(cfg, plain[..n], marked, stored[..n])
  {
    hide BitsSet;
  }

  lemma SameFit(cfg: Config, bank: Bank, data: seq<byte>, more: seq<byte>)
    requires cfg.authSize + CTRL_HEADER_SIZE <= |data| && data <= more && FitsBank(cfg, bank, more)
    ensures FitsBank(cfg, bank, data)
  {
    hide Announces;
    forall n: nat | Announces(cfg, data, 0, n)
      ensures U32(n + cfg.headerSize) <= bank.size
    {
      assert more[0..0 + |data|] == data;
      SliceAnnounces(cfg, more, 0, |data|, n);
    }
  }

  lemma LongerFit(cfg: Config, bank: Bank, data: seq<byte>, more: seq<byte>)
    requires cfg.authSize + CTRL_HEADER_SIZE <= |data| && data <= more && FitsBank(cfg, bank, data)
    ensures FitsBank(cfg, bank, more)
  {
    hide Announces;
    forall n: nat | Announces(cfg, more, 0, n)
      ensures U32(n + cfg.headerSize) <= bank.size
    {
      assert more[0..0 + |data|] == data;
      SliceAnnounces(cfg, more, 0, |data|, n);
    }
  }

  /** A first piece that carries the control header is acknowledged only if the announced size fits. */
  lemma FirstPieceFits(cfg: Config, faults: nat, c: CommitRuns.Client, t: Outcome, s': Session, note: Note, piece: seq<byte>)
    requires CommitRuns.CommitStep(cfg, faults, c, t, s', note) && t.result == Updated
    requires c.s.cur == 0 && Decrypted(cfg, c.pending) == piece && cfg.authSize + CTRL_HEADER_SIZE <= |piece| == c.s.used
    ensures FitsBank(cfg, cfg.BankOf(c.s.imageId), piece)
  {
    hide UpdateEffect, Announces, Decrypted, NextResend;
    var data := DecryptedBuffer(cfg, c.s);
    assert data[..c.s.used] == piece;
    forall n: nat | Announces(cfg, piece, 0, n)
      ensures U32(n + cfg.headerSize) <= cfg.BankOf(c.s.imageId).size
    {
      assert data[0..0 + c.s.used] == piece;
      SliceAnnounces(cfg, data, 0, c.s.used, n);
      if U32(n + cfg.headerSize) > cfg.BankOf(c.s.imageId).size {
        OversizedIsRefused(cfg, c.s.flash, c.s.imageId, c.s.slots[c.s.num].offset, c.s.used, data, t.result, t.f1, t.buf, n);
      }
    }
  }

  /** An acknowledged commit: the piece is in the flash, in the clear. */
  lemma AcknowledgedPieceIsKept(cfg: Config, faults: nat, a: Sender, enc: seq<byte> -> seq<byte>, size: nat, crc: bv16,
                                t: Outcome, s': Session, note: Note, piece: seq<byte>)
    requires Inv(cfg, faults, a) && KeyMatches(cfg, enc) && Sent(cfg, enc, piece, a.c.pending)
    requires CommitRuns.CommitStep(cfg, faults, a.c, t, s', note) && t.result == Updated
    ensures var c' := CommitRuns.Learn(cfg, a.c, ReportCrc(size, crc), s', note);
            c'.armed && Kept(cfg, Learn(a, ReportCrc(size, crc), c', note, piece))
  {
    hide Sent, KeyMatches, StoredAs, FitsBank, UpdateEffect, NextResend, DecryptedBuffer, Decrypted, ReadyAt, CommitRuns.Stored;
    SentIsRecovered(cfg, |a.c.s.flash.cells|, enc, piece, a.c.pending);
    StoredPiece(cfg, piece, a.c.pending, a.c.s.cur);
    StoredSize(cfg, a.plain, a.first > cfg.uuidOffset, a.c.committed);
    if a.c.s.cur == 0 {
      assert a.plain + piece == piece;
      assert a.c.committed + CommitRuns.Stored(cfg, a.c.pending, 0) == CommitRuns.Stored(cfg, a.c.pending, 0);
      if cfg.authSize + CTRL_HEADER_SIZE <= |piece| {
        FirstPieceFits(cfg, faults, a.c, t, s', note, piece);
      }
    } else {
      StoredJoins(cfg, a.plain, a.first > cfg.uuidOffset, a.c.committed, piece, CommitRuns.Stored(cfg, a.c.pending, a.c.s.cur));
      if cfg.authSize + CTRL_HEADER_SIZE <= a.first {
        LongerFit(cfg, cfg.BankOf(a.c.s.imageId), a.plain, a.plain + piece);
      }
    }
  }

  lemma StoredSize(cfg: Config, plain: seq<byte>, marked: bool, stored: seq<byte>)
    requires StoredAs(cfg, plain, marked, stored)
    ensures |stored| == |plain|
  {
  }

  /** A failed one takes back whole sectors. */
  lemma RollbackKeepsFront(cfg: Config, faults: nat, a: Sender, size: nat, crc: bv16, t: Outcome, s': Session, note: Note, piece: seq<byte>)
    requires Inv(cfg, faults, a)
    requires CommitRuns.CommitStep(cfg, faults, a.c, t, s', note) && t.result != Updated
    ensures var c' := CommitRuns.Learn(cfg, a.c, ReportCrc(size, crc), s', note);
            c'.armed && Kept(cfg, Learn(a, ReportCrc(size, crc), c', note, piece))
  {
    hide StoredAs, FitsBank, CommitRuns.InStep, UpdateEffect, RetryEffect, DecryptedBuffer;
    CommitRuns.CommitRollsBack(cfg, faults, a.c, t, s', note);
    StoredSize(cfg, a.plain, a.first > cfg.uuidOffset, a.c.committed);
    StoredFront(cfg, a.plain, a.first > cfg.uuidOffset, a.c.committed, s'.cur);
    if 0 < s'.cur {
      SectorOrMore(s'.cur, a.c.s.cur);
      if cfg.authSize + CTRL_HEADER_SIZE <= a.first {
        SameFit(cfg, cfg.BankOf(a.c.s.imageId), a.plain[..s'.cur], a.plain);
      }
    }
  }

  lemma SectorOrMore(start: nat, cur: nat)
    requires 0 < start == SectorStart(cur)
    ensures BUFFER_SIZE <= start
  {
  }

  lemma NothingKept(cfg: Config, c: CommitRuns.Client)
    requires c.committed == []
    ensures Kept(cfg, Sender(c, [], 0))
  {
  }

  /** One command of a sender: an acknowledged report was over a piece it had sent as it should. */
  ghost predicate SenderStep(cfg: Config, enc: seq<byte> -> seq<byte>, a: Sender, e: Event, b: Sender) {
    && a.c.s.Wf(cfg) && CommitRuns.Allowed(a.c, e)
    && exists t: Outcome, note: Note, piece: seq<byte> :: Tells(cfg, enc, a, e, b, t, note, piece)
  }

  ghost predicate Tells(cfg: Config, enc: seq<byte> -> seq<byte>, a: Sender, e: Event, b: Sender, t: Outcome, note: Note, piece: seq<byte>)
    requires a.c.s.Wf(cfg)
  {
    && Step(cfg, a.c.s, e, t, b.c.s, note)
    && b.c == CommitRuns.Learn(cfg, a.c, e, b.c.s, note)
    && b == Learn(a, e, b.c, note, piece)
    && (e.ReportCrc? && Acknowledged(note) ==> Sent(cfg, enc, piece, a.c.pending))
  }

  lemma ReportKeeps(cfg: Config, enc: seq<byte> -> seq<byte>, faults: nat, a: Sender, size: nat, crc: bv16, b: Sender,
                    t: Outcome, note: Note, piece: seq<byte>)
    requires Inv(cfg, faults, a) && KeyMatches(cfg, enc) && CommitRuns.Allowed(a.c, ReportCrc(size, crc))
    requires Tells(cfg, enc, a, ReportCrc(size, crc), b, t, note, piece)
    ensures Kept(cfg, b)
  {
    hide KeyMatches, Sent, StoredAs, FitsBank, CommitRuns.InStep, UpdateEffect, RetryEffect, NextResend, DecryptedBuffer, CommitRuns.Stored,
         CrcAgrees;
    if ReportAccepted(a.c.s, size, crc) {
      if t.result == Updated {
        AcknowledgedPieceIsKept(cfg, faults, a, enc, size, crc, t, b.c.s, note, piece);
      } else {
        RollbackKeepsFront(cfg, faults, a, size, crc, t, b.c.s, note, piece);
      }
    }
  }

  lemma StepKeeps(cfg: Config, enc: seq<byte> -> seq<byte>, faults: nat, a: Sender, e: Event, b: Sender, t: Outcome, note: Note, piece: seq<byte>)
    requires Inv(cfg, faults, a) && KeyMatches(cfg, enc) && CommitRuns.Allowed(a.c, e)
    requires Tells(cfg, enc, a, e, b, t, note, piece)
    ensures Inv(cfg, faults, b)
  {
    CommitRuns.StepKeeps(cfg, faults, a.c, e, t, b.c.s, note);
    if e.ReportCrc? {
      ReportKeeps(cfg, enc, faults, a, e.size, e.crc, b, t, note, piece);
    } else if b.c.armed {
      hide KeyMatches, StoredAs, FitsBank, CommitRuns.InStep, CrcReport, Start, ParseStart, Validation, PlainPacket, CommitRuns.Stored;
      if e.ReceiveInfo? && e.offset == 0 {
        NothingKept(cfg, b.c);
      } else if e.ReportTarget? {
        NothingKept(cfg, b.c);
      } else {
        assert b.plain == a.plain && b.first == a.first && b.c.committed == a.c.committed;
      }
    }
  }

  ghost predicate Run(cfg: Config, enc: seq<byte> -> seq<byte>, bs: seq<Sender>, es: seq<Event>) {
    && |bs| == |es| + 1
    && (es == [] || (Run(cfg, enc, Front(bs), Front(es)) && SenderStep(cfg, enc, bs[|es| - 1], Last(es), Last(bs))))
  }

  lemma SenderStepKeeps(cfg: Config, enc: seq<byte> -> seq<byte>, faults: nat, a: Sender, e: Event, b: Sender)
    requires Inv(cfg, faults, a) && KeyMatches(cfg, enc) && SenderStep(cfg, enc, a, e, b)
    ensures Inv(cfg, faults, b)
  {
    hide Inv, Tells, KeyMatches;
    var t: Outcome, note: Note, piece: seq<byte> :| Tells(cfg, enc, a, e, b, t, note, piece);
    StepKeeps(cfg, enc, faults, a, e, b, t, note, piece);
  }

  lemma {:induction false} RunKeeps(cfg: Config, enc: seq<byte> -> seq<byte>, faults: nat, bs: seq<Sender>, es: seq<Event>)
    requires Run(cfg, enc, bs, es) && Inv(cfg, faults, bs[0]) && KeyMatches(cfg, enc)
    ensures Inv(cfg, faults, Last(bs))
  {
    hide Inv, SenderStep, KeyMatches;
    if es != [] {
      RunKeeps(cfg, enc, faults, Front(bs), Front(es));
      SenderStepKeeps(cfg, enc, faults, bs[|es| - 1], Last(es), Last(bs));
    }
  }

  /** The main result: in every run over flash that may fail at any time, with or without encryption, flash
      [0, cur_offset) holds exactly the data in the clear that was acknowledged, only a header in the first piece
      marked not ready; and if that piece carried the control header, what it announces fits the bank. */
  lemma PlainDataIsStored(cfg: Config, enc: seq<byte> -> seq<byte>, faults: nat, bs: seq<Sender>, es: seq<Event>)
    requires Run(cfg, enc, bs, es) && Inv(cfg, faults, bs[0]) && KeyMatches(cfg, enc) && Last(bs).c.armed
    ensures var b := Last(bs);
            var bank := cfg.BankOf(b.c.s.imageId);
            && bank.addr + b.c.s.cur <= |b.c.s.flash.cells|
            && StoredAs(cfg, b.plain, b.first > cfg.uuidOffset, b.c.s.flash.cells[bank.addr..bank.addr + b.c.s.cur])
            && (b.c.s.cur > 0 && cfg.authSize + CTRL_HEADER_SIZE <= b.first ==> FitsBank(cfg, bank, b.plain))
  {
    hide KeyMatches, SenderStep, StoredAs, FitsBank, ReadyAt;
    RunKeeps(cfg, enc, faults, bs, es);
    var b := Last(bs);
    StoredSize(cfg, b.plain, b.first > cfg.uuidOffset, b.c.committed);
  }

  // ---------- plain sessions ----------

  /** Packet by packet, what has to be sent for these. */
  ghost predicate AllSent(cfg: Config, enc: seq<byte> -> seq<byte>, plains: seq<seq<byte>>, packets: seq<seq<byte>>) {
    |plains| == |packets| && forall i :: 0 <= i < |packets| ==> Sent(cfg, enc, plains[i], packets[i])
  }

  lemma {:induction false} StreamIsPlain(cfg: Config, flashSize: nat, enc: seq<byte> -> seq<byte>, plains: seq<seq<byte>>, packets: seq<seq<byte>>)
    requires cfg.Valid(flashSize) && KeyMatches(cfg, enc) && AllSent(cfg, enc, plains, packets)
    ensures PlainRuns.DecryptedStream(cfg, packets) == Concat(plains)
  {
    hide KeyMatches, Sent, Decrypted;
    if packets != [] {
      StreamIsPlain(cfg, flashSize, enc, Front(plains), Front(packets));
      SentIsRecovered(cfg, flashSize, enc, Last(plains), Last(packets));
    }
  }

  lemma MarkedImage(cfg: Config, image: seq<byte>, first: nat)
    requires cfg.flagByte < CTRL_HEADER_SIZE && cfg.authSize + CTRL_HEADER_SIZE <= cfg.uuidOffset
    requires first == if |image| < PLAIN_BUFFER then |image| else PLAIN_BUFFER
    ensures StoredAs(cfg, image, first > cfg.uuidOffset, PlainRuns.Marked(cfg, image, |image|))
  {
    hide Or, BitsSet;
    var at := cfg.authSize + cfg.flagByte;
    if at < |image| {
      OrSets(image[at], cfg.notReady);
    }
  }

  /** The same for plain sessions: after the last packet the flash holds the image in the clear, the bit of its
      header apart, and the header announces no more than the bank holds. */
  lemma PlainImageIsStored(cfg: Config, enc: seq<byte> -> seq<byte>, ss: seq<Session>, plains: seq<seq<byte>>, packets: seq<seq<byte>>, n: nat)
    requires PlainRuns.PlainRun(cfg, ss, packets) && PlainRuns.Begun(cfg, ss[0]) && PlainRuns.Packets(packets, ss[0].total)
    requires KeyMatches(cfg, enc) && AllSent(cfg, enc, plains, packets)
    requires cfg.authSize + CTRL_HEADER_SIZE <= PLAIN_BUFFER && Announces(cfg, Concat(plains), 0, n)
    requires !Last(ss).rebooted
    ensures var s0, s := ss[0], Last(ss);
            var start, first := PlainRuns.ImageStart(cfg, s0), if s0.total < PLAIN_BUFFER then s0.total else PLAIN_BUFFER;
            && s.cur == s0.total == |Concat(plains)| && start + s0.total <= |s.flash.cells|
            && StoredAs(cfg, Concat(plains), first > cfg.uuidOffset, s.flash.cells[start..start + s0.total])
            && U32(n + cfg.headerSize) <= cfg.BankOf(s0.imageId).size
  {
    hide KeyMatches, AllSent, StoredAs, PlainRuns.PlainStep, PlainRuns.Packets, PlainRuns.Marked, Announces, ReadyAt, PlainRuns.HeaderFits;
    var s0 := ss[0];
    StreamIsPlain(cfg, |s0.flash.cells|, enc, plains, packets);
    PlainRuns.PlainModeSurvivesExactly(cfg, ss, packets, n);
    PlainRuns.AnnouncedFits(cfg, cfg.BankOf(s0.imageId).size, Concat(plains), n);
    PlainRuns.PlainModeIsLossless(cfg, ss, packets);
    PlainRuns.StreamLength(cfg, |s0.flash.cells|, packets);
    PlainRuns.TotalLength(packets, s0.total);
    MarkedImage(cfg, Concat(plains), if s0.total < PLAIN_BUFFER then s0.total else PLAIN_BUFFER);
  }
}
