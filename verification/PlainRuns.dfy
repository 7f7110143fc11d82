/** Sessions without buffer check: 20-byte packets go straight to the flash, and nothing is lost. */
module PlainRuns {
  import opened Bytes
  import opened Nor
  import opened DfuFlash
  import opened ImageHash
  import opened BlockCipher
  import opened DfuProtocol

  /** The packets one by one decrypted. */
  function DecryptedStream(cfg: Config, packets: seq<seq<byte>>): seq<byte> {
    if packets == [] then [] else DecryptedStream(cfg, Front(packets)) + Decrypted(cfg, Last(packets))
  }

  /** An image of this length in packets of 20 bytes, of which only the last may be shorter. */
  predicate Packets(packets: seq<seq<byte>>, total: nat) {
    && total == |Concat(packets)|
    && forall i :: 0 <= i < |packets| ==> 0 < |packets[i]| <= PACKET_SIZE && (i < |packets| - 1 ==> |packets[i]| == PACKET_SIZE)
  }

  function ImageStart(cfg: Config, s: Session): nat
    requires s.num < |s.slots|
  {
    cfg.BankOf(s.imageId).addr + s.slots[s.num].offset
  }

  /** A transfer begun at offset 0, into a slot that has room for it and may be
      written (a sector start, or behind an image that ends in an erased sector). */
  ghost predicate Begun(cfg: Config, s: Session) {
    && s.Wf(cfg) && s.started && !s.bufferCheck && !s.rebooted
    && s.used == 0 && s.cur == 0
    && s.num < |s.slots|
    && 0 < cfg.BankOf(s.imageId).addr && s.total <= cfg.BankOf(s.imageId).size
    && SectorEnd(ImageStart(cfg, s) + s.total) <= |s.flash.cells|
    && ReadyAt(s.flash.cells, ImageStart(cfg, s))
  }

  /** The header at the front of the image announces a size the bank has room for. */
  predicate HeaderFits(cfg: Config, bankSize: nat, image: seq<byte>) {
    && cfg.authSize + CTRL_HEADER_SIZE <= |image|
    && cfg.authSize + CTRL_HEADER_SIZE <= PLAIN_BUFFER
    && U32(PayloadLen(cfg, image) + cfg.headerSize) <= bankSize
  }

  /** The image as it is stored: the first write out marks the header not ready, if it holds it. */
  function Marked(cfg: Config, image: seq<byte>, total: nat): (r: seq<byte>)
    ensures |r| == |image|
  {
    var at := cfg.authSize + cfg.flagByte;
    if cfg.uuidOffset < (if total < PLAIN_BUFFER then total else PLAIN_BUFFER) && at < |image| then
      image[at := Or(image[at], cfg.notReady)]
    else image
  }

  /** Packets handled one after the other, none of them with a flash fault. */
  ghost predicate PlainRun(cfg: Config, ss: seq<Session>, packets: seq<seq<byte>>) {
    && |ss| == |packets| + 1
    && (packets == [] ||
        (&& PlainRun(cfg, Front(ss), Front(packets))
         && PlainStep(cfg, ss[|packets| - 1], Last(packets), Last(ss))))
  }

  ghost predicate PlainStep(cfg: Config, s: Session, packet: seq<byte>, s': Session) {
    && s.Wf(cfg) && s.flash.faults == s'.flash.faults
    && exists t: Outcome, note: Note :: Step(cfg, s, Packet(packet), t, s', note)
  }

  // ---------- the invariant ----------

  /** What is in the flash and in the buffer after the packets that decrypt to image. */
  ghost predicate Inv(cfg: Config, s0: Session, s: Session, image: seq<byte>)
    requires s0.num < |s0.slots|
  {
    var start := ImageStart(cfg, s0);
    && s.Wf(cfg)
    && s == s0.(flash := s.flash, buf := s.buf, used := s.used, cur := s.cur)
    && s.flash.faults == s0.flash.faults && |s.flash.cells| == |s0.flash.cells|
    && s.cur + s.used == |image| <= s0.total
    && s.buf[..s.used] == image[s.cur..]
    && (if |image| < s0.total then s.cur % PLAIN_BUFFER == 0 && s.used < PLAIN_BUFFER && s.used % PACKET_SIZE == 0
        else s.used == 0 && s.cur == s0.total)
    && Written(s0.flash.cells, s.flash.cells, start, Marked(cfg, image, s0.total), s.cur)
  }

  /** The first cur bytes of the image are stored, nothing below has changed, and writing may go on. */
  ghost predicate Written(before: seq<byte>, after: seq<byte>, start: nat, image: seq<byte>, cur: nat) {
    && start + cur <= |after| && cur <= |image|
    && after[start..start + cur] == image[..cur]
    && SameOutside(before, after, start, |before|)
    && ReadyAt(after, start + cur)
  }

  lemma ConcatLength(packets: seq<seq<byte>>, k: nat)
    requires k < |packets|
    ensures Concat(packets[..k + 1]) == Concat(packets[..k]) + packets[k]
    ensures |Concat(packets[..k + 1])| <= |Concat(packets)|
    decreases |packets| - k
  {
    assert packets[..k + 1][..k] == packets[..k];
    if k + 1 == |packets| {
      assert packets[..k + 1] == packets;
    } else {
      ConcatLength(packets, k + 1);
    }
  }

  lemma {:induction false} StreamLength(cfg: Config, flashSize: nat, packets: seq<seq<byte>>)
    requires cfg.Valid(flashSize)
    ensures |DecryptedStream(cfg, packets)| == |Concat(packets)|
  {
    if packets != [] {
      StreamLength(cfg, flashSize, Front(packets));
      DecryptedLength(cfg, flashSize, Last(packets));
    }
  }

  lemma {:induction false} StreamPrefix(cfg: Config, packets: seq<seq<byte>>, k: nat)
    requires k <= |packets|
    ensures DecryptedStream(cfg, packets[..k]) <= DecryptedStream(cfg, packets)
    decreases |packets| - k
  {
    if k == |packets| {
      assert packets[..k] == packets;
    } else {
      StreamPrefix(cfg, packets, k + 1);
      assert Front(packets[..k + 1]) == packets[..k];
    }
  }

  lemma InitialInv(cfg: Config, s: Session)
    requires Begun(cfg, s)
    ensures Inv(cfg, s, s, [])
  {
    hide ReadyAt;
  }

  // ---------- one packet ----------

  /** The packet continues the image: a whole one, or the last. */
  predicate Continues(image: seq<byte>, packet: seq<byte>, total: nat) {
    && 0 < |packet| <= PACKET_SIZE
    && |image| + |packet| <= total
    && (|packet| == PACKET_SIZE || |image| + |packet| == total)
  }

  /** It is never refused for its length; the buffer is written out when it holds 2040 bytes or the image is complete,
      a whole number of words each time except perhaps the last. */
  lemma PacketFits(cfg: Config, s0: Session, s: Session, image: seq<byte>, packet: seq<byte>)
    requires s0.num < |s0.slots| && s0.total < U32_RANGE && Inv(cfg, s0, s, image) && Continues(image, packet, s0.total)
    ensures !PlainRefused(s, packet)
    ensures s.used + |packet| <= PLAIN_BUFFER
    ensures var q := s.(used := s.used + |packet|);
            && PlainFlushes(q) == (q.used == PLAIN_BUFFER || |image| + |packet| == s0.total)
            && (PlainFlushes(q) && |image| + |packet| < s0.total ==> q.used % 4 == 0)
            && (|image| + |packet| == s0.total ==> (q.used % 4 == 0 <==> s0.total % 4 == 0))
  {
    hide Written;
    RoomForOne(s.used);
    if |image| + |packet| == s0.total {
      WordsLeft(s.cur, s.used + |packet|, s0.total);
    }
  }

  lemma RoomForOne(used: nat)
    requires used % PACKET_SIZE == 0 && used < PLAIN_BUFFER
    ensures used + PACKET_SIZE <= PLAIN_BUFFER
  {
  }

  lemma WordsLeft(cur: nat, rest: nat, total: nat)
    requires cur % PLAIN_BUFFER == 0 && cur + rest == total
    ensures rest % 4 == 0 <==> total % 4 == 0
  {
  }

  lemma MarkedGrows(cfg: Config, image: seq<byte>, more: seq<byte>, total: nat, cur: nat)
    requires cur <= |image|
    requires 0 < cur ==> cfg.uuidOffset >= (if total < PLAIN_BUFFER then total else PLAIN_BUFFER) || cfg.authSize + cfg.flagByte < cur
    ensures Marked(cfg, image + more, total)[..cur] == Marked(cfg, image, total)[..cur]
  {
    hide Or;
  }

  lemma MarkReached(cfg: Config, s0: Session, s: Session, image: seq<byte>)
    requires s0.num < |s0.slots| && Inv(cfg, s0, s, image)
    ensures 0 < s.cur ==> s.cur >= (if s0.total < PLAIN_BUFFER then s0.total else PLAIN_BUFFER)
    ensures 0 < s.cur ==> cfg.uuidOffset >= (if s0.total < PLAIN_BUFFER then s0.total else PLAIN_BUFFER) || cfg.authSize + cfg.flagByte < s.cur
  {
    hide Written;
  }

  lemma PacketCollected(cfg: Config, s0: Session, s: Session, image: seq<byte>, packet: seq<byte>, plain: seq<byte>, q: Session)
    requires s0.num < |s0.slots| && s0.total < U32_RANGE && Inv(cfg, s0, s, image) && Continues(image, packet, s0.total)
    requires |plain| == |packet| && s.used + |packet| < PLAIN_BUFFER && |image| + |packet| < s0.total
    requires q == s.(buf := Store(s.buf, s.used, plain), used := s.used + |packet|)
    ensures Inv(cfg, s0, q, image + plain)
  {
    hide Or, ReadyAt, Marked, Store;
    MarkReached(cfg, s0, s, image);
    MarkedGrows(cfg, image, plain, s0.total, s.cur);
    assert image[s.cur..] + plain == (image + plain)[s.cur..];
  }

  /** What one write out has to store. */
  lemma FlushData(cfg: Config, s0: Session, s: Session, image: seq<byte>, plain: seq<byte>, q: Session)
    requires s0.num < |s0.slots| && Inv(cfg, s0, s, image) && s.used + |plain| <= PLAIN_BUFFER
    requires q == s.(buf := Store(s.buf, s.used, plain), used := s.used + |plain|)
    requires q.used == PLAIN_BUFFER || |image| + |plain| == s0.total
    requires |image| < s0.total && |image| + |plain| <= s0.total && cfg.flagByte < CTRL_HEADER_SIZE
    ensures var data := MarkNotReady(cfg, q.buf, q.cur, q.used)[..q.used];
            Marked(cfg, image, s0.total)[..s.cur] + data == Marked(cfg, image + plain, s0.total)
  {
    hide Or, Written, Marked, MarkNotReady, Store;
    MarkReached(cfg, s0, s, image);
    var image' := image + plain;
    MarkedGrows(cfg, image, plain, s0.total, s.cur);
    assert q.buf[..q.used] == image[s.cur..] + plain == image'[s.cur..];
    if s.cur == 0 {
      assert image'[0..] == image';
      assert q.used == |image'|;
      MarkFirst(cfg, q.buf, q.used, image', s0.total);
      assert Marked(cfg, image, s0.total)[..0] == [];
    } else {
      MarkLater(cfg, q.buf, q.used, image', s0.total, s.cur);
    }
  }

  lemma MarkFirst(cfg: Config, buf: seq<byte>, used: nat, image: seq<byte>, total: nat)
    requires cfg.authSize + CTRL_HEADER_SIZE <= |buf| && cfg.flagByte < CTRL_HEADER_SIZE && cfg.authSize + CTRL_HEADER_SIZE <= cfg.uuidOffset
    requires used <= |buf| && buf[..used] == image && |image| <= total && used <= PLAIN_BUFFER
    requires used == PLAIN_BUFFER || |image| == total
    ensures MarkNotReady(cfg, buf, 0, used)[..used] == Marked(cfg, image, total)
  {
    hide Or;
    forall k | 0 <= k < used
      ensures MarkNotReady(cfg, buf, 0, used)[k] == Marked(cfg, image, total)[k]
    {
      assert buf[k] == buf[..used][k];
    }
  }

  lemma MarkLater(cfg: Config, buf: seq<byte>, used: nat, image: seq<byte>, total: nat, cur: nat)
    requires cfg.authSize + CTRL_HEADER_SIZE <= |buf| && cfg.flagByte < CTRL_HEADER_SIZE
    requires used <= |buf| && 0 < cur <= |image| && buf[..used] == image[cur..]
    requires cfg.uuidOffset >= (if total < PLAIN_BUFFER then total else PLAIN_BUFFER) || cfg.authSize + cfg.flagByte < cur
    ensures Marked(cfg, image, total)[..cur] + MarkNotReady(cfg, buf, cur, used)[..used] == Marked(cfg, image, total)
  {
    hide Or;
    assert Marked(cfg, image, total)[cur..] == image[cur..];
  }

  lemma FlushWrites(before: seq<byte>, s1: FlashState, start: nat, image: seq<byte>, cur: nat, length: nat, data: seq<byte>,
                    result: UpdateResult, s2: FlashState, image': seq<byte>)
    requires Written(before, s1.cells, start, image, cur)
    requires 0 < length <= BUFFER_SIZE && length <= |data| && |before| == |s1.cells|
    requires StoreEffect(s1, start + cur, length, data, result, s2) && s1.faults == s2.faults
    requires FootprintEnd(start + cur, length) <= |before|
    requires image[..cur] + data[..length] == image'
    ensures result == Updated && Written(before, s2.cells, start, image', cur + length)
  {
    hide FootprintEnd, ReadyAt;
    var end := start + cur;
    assert end + length == start + (cur + length);
    KeptSlice(s1.cells, s2.cells, end, FootprintEnd(end, length), start, end);
    JoinSlices(s2.cells, start, end, end + length);
    assert image'[..cur + length] == image';
  }

  /** The header check of the first write out sees the front of the image. */
  lemma HeaderSeen(cfg: Config, s0: Session, s: Session, image: seq<byte>, plain: seq<byte>, q: Session, whole: seq<byte>)
    requires s0.num < |s0.slots| && Inv(cfg, s0, s, image) && s.used + |plain| <= PLAIN_BUFFER && s.cur == 0
    requires q == s.(buf := Store(s.buf, s.used, plain), used := s.used + |plain|)
    requires image + plain <= whole && |whole| == s0.total
    requires q.used == PLAIN_BUFFER || |image| + |plain| == s0.total
    requires HeaderFits(cfg, cfg.BankOf(s0.imageId).size, whole)
    ensures PayloadLen(cfg, q.buf) == PayloadLen(cfg, whole)
  {
    hide Val, Written;
    assert q.buf[..q.used] == image + plain == whole[..q.used];
    forall k | 0 <= k < q.used
      ensures q.buf[k] == whole[k]
    {
      assert q.buf[k] == q.buf[..q.used][k] == whole[..q.used][k];
    }
  }

  lemma PacketFlushed(cfg: Config, s0: Session, s: Session, image: seq<byte>, packet: seq<byte>, plain: seq<byte>, q: Session,
                      whole: seq<byte>, t: Outcome)
    requires Begun(cfg, s0) && Inv(cfg, s0, s, image) && Continues(image, packet, s0.total)
    requires s0.total % 4 == 0 || |image| + |packet| < s0.total
    requires |plain| == |packet| && s.used + |packet| <= PLAIN_BUFFER
    requires q == s.(buf := Store(s.buf, s.used, plain), used := s.used + |packet|)
    requires q.used == PLAIN_BUFFER || |image| + |packet| == s0.total
    requires image + plain <= whole && |whole| == s0.total && HeaderFits(cfg, cfg.BankOf(s0.imageId).size, whole)
    requires UpdateEffect(cfg, q.flash, q.imageId, q.cur, q.slots[q.num].offset, q.used, q.buf, t.result, t.f1, t.buf)
    requires t.f1.faults == s.flash.faults
    ensures t.result == Updated
    ensures Inv(cfg, s0, q.(flash := t.f1, buf := t.buf, cur := q.cur + q.used, used := 0), image + plain)
  {
    hide Or, ReadyAt, Marked, MarkNotReady, Store, FootprintEnd, Written, StoreEffect;
    PacketFits(cfg, s0, s, image, packet);
    FlushAccepted(cfg, s0, s, image, packet, plain, q, whole);
    FlushPlace(cfg, s0, q.cur, q.used);
    FlushData(cfg, s0, s, image, plain, q);
    UpdateStores(cfg, q.flash, q.imageId, q.cur, q.slots[q.num].offset, q.used, q.buf, t);
    hide Precheck, StartAddr, UpdateEffect;
    FlushWrites(s0.flash.cells, q.flash, ImageStart(cfg, s0), Marked(cfg, image, s0.total), q.cur, q.used, t.buf, t.result, t.f1,
                Marked(cfg, image + plain, s0.total));
  }

  lemma UpdateStores(cfg: Config, before: FlashState, imageId: nat, offset: nat, totalOffset: nat, length: nat, data: seq<byte>, t: Outcome)
    requires cfg.authSize + CTRL_HEADER_SIZE <= |data| && cfg.flagByte < CTRL_HEADER_SIZE && length <= |data|
    requires UpdateEffect(cfg, before, imageId, offset, totalOffset, length, data, t.result, t.f1, t.buf)
    requires Precheck(cfg, imageId, offset, length, data) == Updated
    requires StartAddr(cfg, imageId, offset, totalOffset) + length + SECTOR <= U32_RANGE
    ensures t.buf == MarkNotReady(cfg, data, offset, length) && |t.f1.cells| == |before.cells|
    ensures StoreEffect(before, StartAddr(cfg, imageId, offset, totalOffset), length, t.buf, t.result, t.f1)
  {
  }

  lemma FlushAccepted(cfg: Config, s0: Session, s: Session, image: seq<byte>, packet: seq<byte>, plain: seq<byte>, q: Session, whole: seq<byte>)
    requires Begun(cfg, s0) && Inv(cfg, s0, s, image) && Continues(image, packet, s0.total)
    requires s0.total % 4 == 0 || |image| + |packet| < s0.total
    requires |plain| == |packet| && s.used + |packet| <= PLAIN_BUFFER
    requires q == s.(buf := Store(s.buf, s.used, plain), used := s.used + |packet|)
    requires q.used == PLAIN_BUFFER || |image| + |packet| == s0.total
    requires image + plain <= whole && |whole| == s0.total && HeaderFits(cfg, cfg.BankOf(s0.imageId).size, whole)
    ensures Precheck(cfg, q.imageId, q.cur, q.used, q.buf) == Updated
  {
    hide Written, Store, ReadyAt, PayloadLen;
    PacketFits(cfg, s0, s, image, packet);
    if s.cur == 0 {
      HeaderSeen(cfg, s0, s, image, plain, q, whole);
    }
  }

  lemma FlushPlace(cfg: Config, s0: Session, cur: nat, length: nat)
    requires Begun(cfg, s0) && 0 < length && cur + length <= s0.total
    ensures var start := ImageStart(cfg, s0);
            && StartAddr(cfg, s0.imageId, cur, s0.slots[s0.num].offset) == start + cur
            && start + cur + length + SECTOR <= U32_RANGE
            && FootprintEnd(start + cur, length) <= |s0.flash.cells|
  {
    SectorEndOrder(ImageStart(cfg, s0) + cur + length, ImageStart(cfg, s0) + s0.total);
  }

  lemma SectorEndOrder(a: nat, b: nat)
    requires a <= b
    ensures SectorEnd(a) <= SectorEnd(b)
  {
  }

  lemma PacketKeeps(cfg: Config, s0: Session, s: Session, image: seq<byte>, packet: seq<byte>, s': Session, whole: seq<byte>)
    requires Begun(cfg, s0) && Inv(cfg, s0, s, image) && Continues(image, packet, s0.total)
    requires s0.total % 4 == 0 || |image| + |packet| < s0.total
    requires image + Decrypted(cfg, packet) <= whole && |whole| == s0.total
    requires HeaderFits(cfg, cfg.BankOf(s0.imageId).size, whole)
    requires PlainStep(cfg, s, packet, s')
    ensures Inv(cfg, s0, s', image + Decrypted(cfg, packet))
  {
    hide Written, Store, ReadyAt, Decrypted, UpdateEffect;
    var t: Outcome, note: Note :| Step(cfg, s, Packet(packet), t, s', note);
    PacketFits(cfg, s0, s, image, packet);
    var plain := Decrypted(cfg, packet);
    var q := s.(buf := Store(s.buf, s.used, plain), used := s.used + |packet|);
    if PlainFlushes(q) {
      PacketFlushed(cfg, s0, s, image, packet, plain, q, whole, t);
    } else {
      PacketCollected(cfg, s0, s, image, packet, plain, q);
    }
  }

  // ---------- the whole image ----------

  lemma PacketsContinue(cfg: Config, flashSize: nat, packets: seq<seq<byte>>, total: nat, k: nat)
    requires cfg.Valid(flashSize) && Packets(packets, total) && k < |packets|
    ensures Continues(DecryptedStream(cfg, packets[..k]), packets[k], total)
    ensures DecryptedStream(cfg, packets[..k]) + Decrypted(cfg, packets[k]) == DecryptedStream(cfg, packets[..k + 1])
    ensures |DecryptedStream(cfg, packets[..k])| + |packets[k]| == total <==> k == |packets| - 1
  {
    StreamLength(cfg, flashSize, packets[..k]);
    ConcatLength(packets, k);
    assert Front(packets[..k + 1]) == packets[..k];
    if k == |packets| - 1 {
      assert packets[..k + 1] == packets;
    } else {
      ConcatLength(packets, k + 1);
    }
  }

  /** After any number of the packets, the last of an image that is not a whole number of words excepted: nothing has been refused, everything received is in the flash or in the
      buffer, the offset and the buffer fill together count the bytes received, and what is in the flash is the
      front of the image. */
  lemma {:induction false} PacketsKeep(cfg: Config, ss: seq<Session>, packets: seq<seq<byte>>, k: nat)
    requires k <= |packets| && |ss| == k + 1 && PlainRun(cfg, ss, packets[..k])
    requires Begun(cfg, ss[0]) && Packets(packets, ss[0].total)
    requires ss[0].total % 4 == 0 || k < |packets|
    requires HeaderFits(cfg, cfg.BankOf(ss[0].imageId).size, DecryptedStream(cfg, packets))
    ensures Inv(cfg, ss[0], ss[k], DecryptedStream(cfg, packets[..k]))
  {
    hide PlainStep, Inv, HeaderFits, Begun, Decrypted, ReadyAt;
    var s0 := ss[0];
    assert BegunIsWf(cfg, s0) by { BegunWf(cfg, s0); }
    if k == 0 {
      InitialInv(cfg, s0);
    } else {
      assert Front(packets[..k]) == packets[..k - 1];
      PacketsKeep(cfg, Front(ss), packets, k - 1);
      PacketsContinue(cfg, |s0.flash.cells|, packets, s0.total, k - 1);
      StreamLength(cfg, |s0.flash.cells|, packets);
      StreamPrefix(cfg, packets, k);
      PacketKeeps(cfg, s0, ss[k - 1], DecryptedStream(cfg, packets[..k - 1]), packets[k - 1], ss[k], DecryptedStream(cfg, packets));
    }
  }

  ghost predicate BegunIsWf(cfg: Config, s: Session) { cfg.Valid(|s.flash.cells|) && s.num < |s.slots| && !s.rebooted }

  lemma BegunWf(cfg: Config, s: Session)
    requires Begun(cfg, s)
    ensures BegunIsWf(cfg, s)
  {
  }

  /** The main result: after the last packet the flash holds the whole image, each packet decrypted on its own and
      the header marked not ready; nothing below it has changed, nothing is left in the buffer, and the next image
      may be written right behind it. */
  lemma PlainModeIsLossless(cfg: Config, ss: seq<Session>, packets: seq<seq<byte>>)
    requires PlainRun(cfg, ss, packets) && Begun(cfg, ss[0]) && Packets(packets, ss[0].total)
    requires HeaderFits(cfg, cfg.BankOf(ss[0].imageId).size, DecryptedStream(cfg, packets))
    requires ss[0].total % 4 == 0
    ensures var s0, s := ss[0], Last(ss);
            var start := ImageStart(cfg, s0);
            && !s.rebooted && s.cur == s0.total && s.used == 0
            && start + s0.total <= |s.flash.cells|
            && s.flash.cells[start..start + s0.total] == Marked(cfg, DecryptedStream(cfg, packets), s0.total)
            && SameOutside(s0.flash.cells, s.flash.cells, start, |s0.flash.cells|)
            && ReadyAt(s.flash.cells, start + s0.total)
  {
    hide Inv, ReadyAt, Or, Marked, HeaderFits, PlainStep, Begun;
    assert packets[..|packets|] == packets;
    BegunWf(cfg, ss[0]);
    PacketsKeep(cfg, ss, packets, |packets|);
    StreamLength(cfg, |ss[0].flash.cells|, packets);
    InvAtEnd(cfg, ss[0], Last(ss), DecryptedStream(cfg, packets));
  }

  lemma InvAtEnd(cfg: Config, s0: Session, s: Session, image: seq<byte>)
    requires s0.num < |s0.slots| && Inv(cfg, s0, s, image) && |image| == s0.total && !s0.rebooted
    ensures var start := ImageStart(cfg, s0);
            && !s.rebooted && s.cur == s0.total && s.used == 0
            && start + s0.total <= |s.flash.cells|
            && s.flash.cells[start..start + s0.total] == Marked(cfg, image, s0.total)
            && SameOutside(s0.flash.cells, s.flash.cells, start, |s0.flash.cells|)
            && ReadyAt(s.flash.cells, start + s0.total)
  {
    hide ReadyAt, Marked;
    assert Marked(cfg, image, s0.total)[..s.cur] == Marked(cfg, image, s0.total);
  }

  /** Why the length has to be a whole number of words: otherwise the packet that completes the image is refused by
      the flash layer, and the session ends with that part of the image not stored. */
  lemma LastPacketRefused(cfg: Config, s0: Session, s: Session, image: seq<byte>, packet: seq<byte>, s': Session)
    requires s0.num < |s0.slots| && s0.total < U32_RANGE && s0.started && !s0.bufferCheck && Inv(cfg, s0, s, image)
    requires Continues(image, packet, s0.total) && |image| + |packet| == s0.total && s0.total % 4 != 0
    requires PlainStep(cfg, s, packet, s')
    ensures s'.rebooted && s'.flash == s.flash && s'.cur == s.cur < s0.total
  {
    hide Decrypted, StoreEffect, Store, Written;
    PacketFits(cfg, s0, s, image, packet);
  }

  /** A run over the whole of such an image: the last packet ends the session, and what was in the buffer is lost. */
  lemma OddLengthIsRefused(cfg: Config, ss: seq<Session>, packets: seq<seq<byte>>)
    requires PlainRun(cfg, ss, packets) && Begun(cfg, ss[0]) && Packets(packets, ss[0].total)
    requires HeaderFits(cfg, cfg.BankOf(ss[0].imageId).size, DecryptedStream(cfg, packets))
    requires ss[0].total % 4 != 0
    ensures packets != [] && Inv(cfg, ss[0], ss[|packets| - 1], DecryptedStream(cfg, Front(packets)))
    ensures var before, s := ss[|packets| - 1], Last(ss);
            s.rebooted && !before.rebooted && s.flash == before.flash && s.cur == before.cur < ss[0].total
  {
    hide Inv, HeaderFits, PlainStep, Decrypted;
    var n := |packets| - 1;
    PacketsKeep(cfg, Front(ss), packets, n);
    PacketsContinue(cfg, |ss[0].flash.cells|, packets, ss[0].total, n);
    LastPacketRefused(cfg, ss[0], ss[n], DecryptedStream(cfg, packets[..n]), packets[n], Last(ss));
    InvNotRebooted(cfg, ss[0], ss[n], DecryptedStream(cfg, packets[..n]));
  }

  lemma InvNotRebooted(cfg: Config, s0: Session, s: Session, image: seq<byte>)
    requires s0.num < |s0.slots| && Inv(cfg, s0, s, image)
    ensures s.rebooted == s0.rebooted
  {
  }

  // ---------- images that announce too much ----------

  /** The image begins with a header that announces more than the bank holds. */
  ghost predicate Oversized(cfg: Config, bankSize: nat, image: seq<byte>, n: nat) {
    && cfg.authSize + CTRL_HEADER_SIZE <= PLAIN_BUFFER
    && Announces(cfg, image, 0, n) && U32(n + cfg.headerSize) > bankSize
  }

  /** Nothing has been written: the packets are in the buffer, or the session has ended. */
  ghost predicate Unwritten(cfg: Config, s0: Session, s: Session, image: seq<byte>)
    requires s0.num < |s0.slots|
  {
    && s.flash == s0.flash && s.cur == 0
    && (if |image| < s0.total && |image| < PLAIN_BUFFER then Inv(cfg, s0, s, image) && !s.rebooted else s.rebooted)
  }

  lemma OversizedFlush(cfg: Config, s0: Session, s: Session, image: seq<byte>, plain: seq<byte>, q: Session, whole: seq<byte>,
                       t: Outcome, s': Session, n: nat)
    requires Begun(cfg, s0) && Inv(cfg, s0, s, image) && s.cur == 0 && s.used + |plain| <= PLAIN_BUFFER
    requires q == s.(buf := Store(s.buf, s.used, plain), used := s.used + |plain|)
    requires q.used == PLAIN_BUFFER || |image| + |plain| == s0.total
    requires image + plain <= whole && |whole| == s0.total && Oversized(cfg, cfg.BankOf(s0.imageId).size, whole, n)
    requires Flush(cfg, q, t, s')
    ensures s'.rebooted && s'.flash == s.flash && s'.cur == 0
  {
    hide Written, Store, ReadyAt, UpdateEffect;
    assert image[0..] == image;
    assert q.buf[..q.used] == image + plain == whole[..q.used];
    PrefixAnnounces(cfg, whole, q.used, n);
    PrefixAnnounces(cfg, q.buf, q.used, n);
    OversizedIsRefused(cfg, q.flash, q.imageId, q.slots[q.num].offset, q.used, q.buf, t.result, t.f1, t.buf, n);
  }

  lemma PrefixAnnounces(cfg: Config, s: seq<byte>, length: nat, n: nat)
    requires cfg.authSize + CTRL_HEADER_SIZE <= length <= |s|
    ensures Announces(cfg, s, 0, n) <==> Announces(cfg, s[..length], 0, n)
  {
    hide Announces;
    SliceAnnounces(cfg, s, 0, length, n);
  }

  lemma OversizedPacket(cfg: Config, s0: Session, s: Session, image: seq<byte>, packet: seq<byte>, s': Session, whole: seq<byte>, n: nat)
    requires Begun(cfg, s0) && Unwritten(cfg, s0, s, image) && Continues(image, packet, s0.total)
    requires image + Decrypted(cfg, packet) <= whole && |whole| == s0.total
    requires Oversized(cfg, cfg.BankOf(s0.imageId).size, whole, n) && PlainStep(cfg, s, packet, s')
    ensures Unwritten(cfg, s0, s', image + Decrypted(cfg, packet))
  {
    hide Written, Store, ReadyAt, Decrypted, UpdateEffect, Oversized, Flush;
    var t: Outcome, note: Note :| Step(cfg, s, Packet(packet), t, s', note);
    PacketFits(cfg, s0, s, image, packet);
    var plain := Decrypted(cfg, packet);
    var q := s.(buf := Store(s.buf, s.used, plain), used := s.used + |packet|);
    if PlainFlushes(q) {
      OversizedFlush(cfg, s0, s, image, plain, q, whole, t, s', n);
    } else {
      PacketCollected(cfg, s0, s, image, packet, plain, q);
    }
  }

  /** Such an image never gets into the flash: whatever part of its packets is sent, the flash stays as it was, and
      the packet that fills the buffer or completes the image ends the session. */
  lemma {:induction false} OversizedIsNeverStored(cfg: Config, ss: seq<Session>, packets: seq<seq<byte>>, k: nat, n: nat)
    requires k <= |packets| && |ss| == k + 1 && PlainRun(cfg, ss, packets[..k])
    requires Begun(cfg, ss[0]) && Packets(packets, ss[0].total)
    requires Oversized(cfg, cfg.BankOf(ss[0].imageId).size, DecryptedStream(cfg, packets), n)
    ensures BegunIsWf(cfg, ss[0]) && Unwritten(cfg, ss[0], ss[k], DecryptedStream(cfg, packets[..k]))
    ensures k == |packets| ==> ss[k].rebooted
  {
    hide PlainStep, Begun, Decrypted, ReadyAt, Oversized, Inv;
    var s0 := ss[0];
    assert BegunIsWf(cfg, s0) by { BegunWf(cfg, s0); }
    StreamLength(cfg, |s0.flash.cells|, packets[..k]);
    if k == 0 {
      InitialInv(cfg, s0);
      BegunEmpty(cfg, s0);
      StreamLength(cfg, |s0.flash.cells|, packets);
      OversizedIsLong(cfg, cfg.BankOf(s0.imageId).size, DecryptedStream(cfg, packets), n);
    } else {
      assert Front(packets[..k]) == packets[..k - 1];
      OversizedIsNeverStored(cfg, Front(ss), packets, k - 1, n);
      PacketsContinue(cfg, |s0.flash.cells|, packets, s0.total, k - 1);
      StreamLength(cfg, |s0.flash.cells|, packets);
      StreamPrefix(cfg, packets, k);
      OversizedPacket(cfg, s0, ss[k - 1], DecryptedStream(cfg, packets[..k - 1]), packets[k - 1], ss[k], DecryptedStream(cfg, packets), n);
      assert k == |packets| ==> packets[..k] == packets;
    }
  }

  lemma BegunEmpty(cfg: Config, s: Session)
    requires Begun(cfg, s)
    ensures s.cur == 0 && !s.rebooted
  {
  }

  lemma OversizedIsLong(cfg: Config, bankSize: nat, image: seq<byte>, n: nat)
    requires Oversized(cfg, bankSize, image, n)
    ensures image != []
  {
  }

  /** Whether a transfer survives its last packet is a matter of the image alone: of its length, and of the length
      its header announces. */
  lemma PlainModeSurvivesExactly(cfg: Config, ss: seq<Session>, packets: seq<seq<byte>>, n: nat)
    requires PlainRun(cfg, ss, packets) && Begun(cfg, ss[0]) && Packets(packets, ss[0].total)
    requires cfg.authSize + CTRL_HEADER_SIZE <= PLAIN_BUFFER && Announces(cfg, DecryptedStream(cfg, packets), 0, n)
    ensures !Last(ss).rebooted <==> ss[0].total % 4 == 0 && U32(n + cfg.headerSize) <= cfg.BankOf(ss[0].imageId).size
    ensures Last(ss).cur == ss[0].total <==> !Last(ss).rebooted
  {
    hide Inv, HeaderFits, Begun, Packets, Marked, ReadyAt, Announces, Written;
    var s0 := ss[0];
    if U32(n + cfg.headerSize) > cfg.BankOf(s0.imageId).size {
      assert packets[..|packets|] == packets;
      OversizedIsNeverStored(cfg, ss, packets, |packets|, n);
      OversizedIsLong(cfg, cfg.BankOf(s0.imageId).size, DecryptedStream(cfg, packets), n);
      StreamLength(cfg, |s0.flash.cells|, packets);
      TotalLength(packets, s0.total);
    } else {
      AnnouncedFits(cfg, cfg.BankOf(s0.imageId).size, DecryptedStream(cfg, packets), n);
      if s0.total % 4 == 0 {
        PlainModeIsLossless(cfg, ss, packets);
      } else {
        OddLengthIsRefused(cfg, ss, packets);
      }
    }
  }

  lemma TotalLength(packets: seq<seq<byte>>, total: nat)
    requires Packets(packets, total)
    ensures total == |Concat(packets)|
  {
  }

  lemma AnnouncedFits(cfg: Config, bankSize: nat, image: seq<byte>, n: nat)
    requires cfg.authSize + CTRL_HEADER_SIZE <= PLAIN_BUFFER && Announces(cfg, image, 0, n)
    ensures HeaderFits(cfg, bankSize, image) <==> U32(n + cfg.headerSize) <= bankSize
  {
    hide Le32;
    AnnouncedLength(cfg, image, 0, n);
  }

  /** What has been received fits the buffer and the image. */
  predicate Inside(s: Session) {
    s.used <= PLAIN_BUFFER && s.cur + s.used <= s.total < U32_RANGE
  }

  /** Whatever packets come, of any size and over any flash, a session goes on only as long as they fit. */
  lemma PlainStaysInside(cfg: Config, s: Session, data: seq<byte>, t: Outcome, s': Session)
    requires s.Wf(cfg) && Inside(s) && s.total + PLAIN_BUFFER < U32_RANGE
    requires PlainPacket(cfg, s, data, t, s')
    ensures s'.rebooted || Inside(s')
    ensures s.used + |data| > PLAIN_BUFFER || s.cur + s.used + |data| > s.total ==> s' == s.(rebooted := true)
  {
    hide Decrypted, Store, UpdateEffect;
  }

  /** The 32-bit sum in the length check is right for every image length below 2^32 - 2040, and for no other. */
  lemma LengthCheckIsExact(total: nat)
    requires total < U32_RANGE
    ensures total + PLAIN_BUFFER < U32_RANGE <==>
            forall received: nat, length: nat :: received <= total && length <= PLAIN_BUFFER ==> CheckedRight(received, length, total)
  {
    if total + PLAIN_BUFFER >= U32_RANGE {
      assert !CheckedRight(total, PLAIN_BUFFER, total);
    }
  }

  predicate CheckedRight(received: nat, length: nat, total: nat) {
    U32(received + length) > total <==> received + length > total
  }
}
