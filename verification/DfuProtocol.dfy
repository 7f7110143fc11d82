/** The DFU session protocol of subsys/dfu/dfu_service.c as a state machine: its globals, the commands of a
    client, and what each command may do, the flash being free to fail. */
module DfuProtocol {
  import opened Bytes
  import opened Nor
  import opened DfuFlash
  import opened ImageHash
  import opened BlockCipher
  import BufferCheck

  const BUFFER_SIZE := 2048      // DFU_TEMP_BUFFER_SIZE
  const PACKET_SIZE := 20
  const PLAIN_BUFFER := 2040     // the buffer size rounded down to whole packets

  // T_DFU_ARV_ERROR_CODE
  const ARV_SUCCESS := 1
  const ARV_INVALID_PARAMETER := 2
  const ARV_CRC_ERROR := 5
  const ARV_LENGTH_ERROR := 6
  const ARV_PROG_ERROR := 7
  const ARV_ERASE_ERROR := 8

  /** T_TEMP_IMAGE_INFO */
  datatype Slot = Slot(imageId: nat, size: nat, offset: nat)

  /** The globals of the service, with the flash below them. A reboot ends the session. */
  datatype Session = Session(
    flash: FlashState,
    buf: seq<byte>,         // ota_temp_buffer_head
    used: nat,              // g_ota_tmp_buf_used_size
    total: nat,             // image_total_length
    cur: nat,               // cur_offset
    resend: nat,            // dfu_resend_offset
    imageId: nat,           // ctrl_header.image_id
    started: bool,          // is_ota_procedure
    bufferCheck: bool,      // buffer_check_en
    slots: seq<Slot>,       // temp_image_info
    num: nat,               // temp_image_num
    rebooted: bool)
  {
    ghost predicate Wf(cfg: Config) {
      && cfg.Valid(|flash.cells|)
      && |buf| == BUFFER_SIZE
      && cfg.authSize + CTRL_HEADER_SIZE <= BUFFER_SIZE
      && used <= BUFFER_SIZE
      && cur < U32_RANGE && resend < U32_RANGE
      && num <= |slots|
    }
  }

  datatype Event =
    | Packet(data: seq<byte>)
    | StartDfu(header: seq<byte>)                     // the 16 bytes behind the opcode
    | ReceiveInfo(imageId: nat, offset: nat)
    | ReportTarget(imageId: nat)
    | EnableBufferCheck
    | ReportCrc(size: nat, crc: bv16)
    | SelectImage(imageId: nat)                       // VALID_FW, which leaves the check to the application task
    | CheckImage                                      // and dfu_service_handle_valid_fw there
    | Activate

  /** What the client is told. */
  datatype Note = Silent | Status(code: nat) | StatusAt(code: nat, offset: nat)

  predicate Acknowledged(note: Note) { note.StatusAt? && note.code == ARV_SUCCESS }

  predicate RolledBack(note: Note) { note.StatusAt? && (note.code == ARV_PROG_ERROR || note.code == ARV_ERASE_ERROR) }

  function Decrypted(cfg: Config, data: seq<byte>): seq<byte> {
    if cfg.encrypted then ByBlocks(cfg.decrypt, data) else data
  }

  lemma DecryptedLength(cfg: Config, flashSize: nat, data: seq<byte>)
    requires cfg.Valid(flashSize)
    ensures |Decrypted(cfg, data)| == |data|
  {
    ByBlocksLength(cfg.decrypt, data);
  }

  /** What a client has to send for the device to end up with plain: its blocks encrypted, or, if the device expects
      no encryption, just that. */
  ghost predicate Sent(cfg: Config, enc: seq<byte> -> seq<byte>, plain: seq<byte>, data: seq<byte>) {
    if cfg.encrypted then Seals(enc, plain, data) else data == plain
  }

  /** If the device expects encryption, the client encrypts what the device decrypts. */
  ghost predicate KeyMatches(cfg: Config, enc: seq<byte> -> seq<byte>) {
    cfg.encrypted ==> BlockFunction(enc) && forall b: seq<byte> :: |b| == BLOCK ==> cfg.decrypt(enc(b)) == b
  }

  lemma SentIsRecovered(cfg: Config, flashSize: nat, enc: seq<byte> -> seq<byte>, plain: seq<byte>, data: seq<byte>)
    requires cfg.Valid(flashSize) && KeyMatches(cfg, enc) && Sent(cfg, enc, plain, data)
    ensures Decrypted(cfg, data) == plain && |data| == |plain|
  {
    if cfg.encrypted {
      SealedIsRecovered(enc, cfg.decrypt, plain, data);
    }
  }

  predicate UserImage(cfg: Config, imageId: nat) {
    imageId == cfg.userData || imageId == cfg.userData2
  }

  // ---------- packets ----------

  function Store(buf: seq<byte>, used: nat, data: seq<byte>): (r: seq<byte>)
    requires used + |data| <= |buf|
    ensures |r| == |buf| && r[..used] == buf[..used] && r[..used + |data|] == buf[..used] + data
  {
    buf[..used] + data + buf[used + |data|..]
  }

  /** With buffer check the packet is only collected. */
  function CollectPacket(s: Session, data: seq<byte>): Session
    requires s.used <= BUFFER_SIZE == |s.buf|
  {
    if s.used + |data| > BUFFER_SIZE then s.(rebooted := true)
    else s.(buf := Store(s.buf, s.used, data), used := s.used + |data|)
  }

  /** Without it, a packet the buffer or the image has no room for ends the session... */
  predicate PlainRefused(s: Session, data: seq<byte>) {
    s.used + |data| > PLAIN_BUFFER || U32(s.cur + s.used + |data|) > s.total
  }

  /** ...and the buffer is written out when it is full or completes the image. */
  predicate PlainFlushes(s: Session) {
    s.used == PLAIN_BUFFER || U32(s.cur + s.used) == s.total
  }

  /** Writing the buffer out; a failure ends the session. */
  ghost predicate Flush(cfg: Config, q: Session, t: Outcome, s': Session)
    requires q.Wf(cfg)
  {
    && q.num < |q.slots|
    && UpdateEffect(cfg, q.flash, q.imageId, q.cur, q.slots[q.num].offset, q.used, q.buf, t.result, t.f1, t.buf)
    && s' == if t.result == Updated then q.(flash := t.f1, buf := t.buf, cur := U32(q.cur + q.used), used := 0)
             else q.(flash := t.f1, buf := t.buf, rebooted := true)
  }

  ghost predicate PlainPacket(cfg: Config, s: Session, data: seq<byte>, t: Outcome, s': Session)
    requires s.Wf(cfg)
  {
    var plain := Decrypted(cfg, data);
    if PlainRefused(s, data) then s' == s.(rebooted := true)
    else
      && |plain| == |data|
      && var q := s.(buf := Store(s.buf, s.used, plain), used := s.used + |data|);
      if PlainFlushes(q) then Flush(cfg, q, t, s') else s' == q
  }

  // ---------- buffer check ----------

  /** The answers of the flash operations made for one buffer: the update, and after a failed one the recovery
      of one or two sectors. */
  datatype Outcome = Outcome(result: UpdateResult, f1: FlashState, buf: seq<byte>, ok1: bool, f2: FlashState, ok2: bool, f3: FlashState)

  /** Whether the reported size is one the buffered data may be checked under. */
  predicate SizeAgrees(s: Session, size: nat) {
    s.used == size || U32(s.cur + s.used) == s.total
  }

  predicate CrcAgrees(s: Session, crc: bv16)
    requires s.used <= |s.buf|
  {
    s.used % 2 == 0 &&
    crc == BufferCheck.HalfWord(BufferCheck.CheckValue(s.buf[..s.used]).1, BufferCheck.CheckValue(s.buf[..s.used]).0)
  }

  /** The buffer is decrypted in place before it is committed. */
  function DecryptedBuffer(cfg: Config, s: Session): (r: seq<byte>)
    requires s.Wf(cfg)
    ensures |r| == |s.buf| && r[..s.used] == Decrypted(cfg, s.buf[..s.used])
  {
    DecryptedLength(cfg, |s.flash.cells|, s.buf[..s.used]);
    Decrypted(cfg, s.buf[..s.used]) + s.buf[s.used..]
  }

  /** Moving the resend point on: by one sector at most. */
  function NextResend(resend: nat, cur: nat): nat {
    if U32(cur - resend) >= SECTOR then U32(resend + SECTOR) else resend
  }

  ghost predicate Commit(cfg: Config, s: Session, t: Outcome, s': Session, note: Note)
    requires s.Wf(cfg)
  {
    && s.num < |s.slots|
    && UpdateEffect(cfg, s.flash, s.imageId, s.cur, s.slots[s.num].offset, s.used, DecryptedBuffer(cfg, s), t.result, t.f1, t.buf)
    && if t.result == Updated then
         var cur := U32(s.cur + s.used);
         && s' == s.(flash := t.f1, buf := t.buf, used := 0, cur := cur, resend := NextResend(s.resend, cur))
         && note == StatusAt(ARV_SUCCESS, cur)
       else
         && RetryEffect(cfg, t.f1, s.imageId, s.resend, t.ok1, t.f2)
         && if !t.ok1 || U32(s.cur - s.resend) <= SECTOR then
              && s' == s.(flash := t.f2, buf := t.buf, used := 0, cur := s.resend)
              && note == StatusAt(if t.ok1 then ARV_PROG_ERROR else ARV_ERASE_ERROR, s.resend)
            else
              && RetryEffect(cfg, t.f2, s.imageId, U32(s.resend + SECTOR), t.ok2, t.f3)
              && s' == s.(flash := t.f3, buf := t.buf, used := 0, cur := s.resend)
              && note == StatusAt(if t.ok2 then ARV_PROG_ERROR else ARV_ERASE_ERROR, s.resend)
  }

  /** dfu_buffer_check_process */
  ghost predicate CrcReport(cfg: Config, s: Session, size: nat, crc: bv16, t: Outcome, s': Session, note: Note)
    requires s.Wf(cfg)
  {
    if size > BUFFER_SIZE then
      s' == s.(used := 0) && note == StatusAt(ARV_INVALID_PARAMETER, s.cur)
    else if !SizeAgrees(s, size) then
      s' == s.(used := 0) && note == StatusAt(ARV_LENGTH_ERROR, s.cur)
    else if !CrcAgrees(s, crc) then
      s' == s.(used := 0) && note == StatusAt(ARV_CRC_ERROR, s.cur)
    else
      Commit(cfg, s, t, s', note)
  }

  // ---------- images ----------

  /** The fields of the control header in START_DFU that the service uses. */
  datatype StartInfo = StartInfo(icType: nat, imageId: nat, payloadLen: nat)

  function ParseStart(cfg: Config, flashSize: nat, header: seq<byte>): StartInfo
    requires cfg.Valid(flashSize) && |header| == 16
  {
    DecryptedLength(cfg, flashSize, header);
    var p := Decrypted(cfg, header);
    StartInfo(Val(p[2]), Le16(p, 6), Le32(p, 8))
  }

  function SlotFor(s: Session, imageId: nat, size: nat): Slot
    requires s.num <= |s.slots|
  {
    Slot(imageId, size, if s.num == 0 then 0 else U32(s.slots[s.num - 1].offset + s.slots[s.num - 1].size))
  }

  /** START_DFU is refused for another chip or an unknown image. */
  predicate StartRefused(cfg: Config, info: StartInfo) {
    info.icType != cfg.icType || !cfg.KnownImage(info.imageId)
  }

  /** START_DFU puts the image into a slot. */
  predicate Records(cfg: Config, info: StartInfo) {
    !StartRefused(cfg, info) && !UserImage(cfg, info.imageId) && !cfg.bankSwitch
  }

  ghost predicate Start(cfg: Config, s: Session, info: StartInfo, s': Session, note: Note) {
    var q := s.(imageId := info.imageId, total := U32(info.payloadLen + cfg.headerSize));
    if StartRefused(cfg, info) then
      s' == q && note == Status(ARV_INVALID_PARAMETER)
    else
      && note == Status(ARV_SUCCESS)
      && if !Records(cfg, info) then s' == q.(started := true)
         else s.num < |s.slots| && s' == q.(started := true, slots := s.slots[s.num := SlotFor(s, info.imageId, q.total)])
  }

  function Receive(s: Session, imageId: nat, offset: nat): Session {
    var q := s.(imageId := imageId, cur := offset);
    if offset == 0 || offset == CTRL_HEADER_SIZE then q.(used := 0, resend := 0) else q
  }

  /** The image checked is a whole bank, not a slot. */
  predicate ChecksBank(cfg: Config, s: Session) {
    cfg.bankSwitch || UserImage(cfg, s.imageId)
  }

  /** dfu_service_handle_valid_fw */
  ghost predicate Validation(cfg: Config, s: Session, ok: bool, f: FlashState, s': Session, note: Note)
    requires s.Wf(cfg)
  {
    var whole := ChecksBank(cfg, s);
    && (whole || s.num < |s.slots|)
    && (if whole then CheckEffect(cfg, s.flash, s.imageId, 0, ok, f)
        else CheckEffect(cfg, s.flash, s.slots[s.num].imageId, s.slots[s.num].offset, ok, f))
    && s' == s.(flash := f, num := if ok && !whole then U8(s.num + 1) else s.num)
    && note == Status(if ok then ARV_SUCCESS else ARV_CRC_ERROR)
  }

  /** The cells after the first n recorded images have been made ready. */
  function MadeAllReady(cfg: Config, cells: seq<byte>, base: nat, slots: seq<Slot>, n: nat): (r: seq<byte>)
    requires n <= |slots|
    ensures |r| == |cells|
  {
    if n == 0 then cells
    else MadeReady(cfg, MadeAllReady(cfg, cells, base, slots, n - 1), U32(base + slots[n - 1].offset))
  }

  predicate HeadersInFlash(cfg: Config, size: nat, base: nat, slots: seq<Slot>, n: nat)
    requires n <= |slots|
  {
    forall i :: 0 <= i < n ==> U32(base + slots[i].offset) + cfg.authSize + CTRL_HEADER_SIZE <= size
  }

  /** Cell k belongs to none of the first n control headers. */
  predicate OutsideHeaders(cfg: Config, base: nat, slots: seq<Slot>, n: nat, k: nat)
    requires n <= |slots|
  {
    forall i :: 0 <= i < n ==> !InHeader(cfg, U32(base + slots[i].offset), k)
  }

  predicate InHeader(cfg: Config, header: nat, k: nat) {
    header + cfg.authSize <= k < header + cfg.authSize + CTRL_HEADER_SIZE
  }

  /** The first n recorded images have been made ready. A flash fault may spoil their control headers. */
  ghost predicate ReadiedFirst(cfg: Config, before: FlashState, base: nat, slots: seq<Slot>, n: nat, after: FlashState)
    requires n <= |slots|
  {
    && before.faults <= after.faults && |before.cells| == |after.cells|
    && (forall k :: 0 <= k < |before.cells| && OutsideHeaders(cfg, base, slots, n, k) ==> after.cells[k] == before.cells[k])
    && (before.faults == after.faults && HeadersInFlash(cfg, |before.cells|, base, slots, n) ==>
          after.cells == MadeAllReady(cfg, before.cells, base, slots, n))
  }

  lemma ReadyOneMore(cfg: Config, s0: FlashState, base: nat, slots: seq<Slot>, n: nat, s1: FlashState, s2: FlashState)
    requires n < |slots| && ReadiedFirst(cfg, s0, base, slots, n, s1)
    requires ReadyEffect(cfg, s1, U32(base + slots[n].offset), s2)
    ensures ReadiedFirst(cfg, s0, base, slots, n + 1, s2)
  {
    hide MadeReady;
    forall k | 0 <= k < |s0.cells| && OutsideHeaders(cfg, base, slots, n + 1, k)
      ensures OutsideHeaders(cfg, base, slots, n, k) && !InHeader(cfg, U32(base + slots[n].offset), k)
    {
    }
  }

  /** dfu_service_handle_active_image, user data aside. */
  ghost predicate Activation(cfg: Config, s: Session, s': Session)
    requires s.Wf(cfg)
  {
    && s' == s.(flash := s'.flash)
    && if cfg.bankSwitch then s'.flash == s.flash
       else ReadiedFirst(cfg, s.flash, cfg.BankOf(s.imageId).addr, s.slots, s.num, s'.flash)
  }

  // ---------- one step ----------

  /** The report passes its checks, and the buffer goes to the flash. */
  predicate ReportAccepted(s: Session, size: nat, crc: bv16)
    requires s.used <= |s.buf|
  {
    size <= BUFFER_SIZE && SizeAgrees(s, size) && CrcAgrees(s, crc)
  }

  /** The commands that look at the slot of the image now being received; the others may come when all slots
      are taken. */
  ghost predicate UsesSlot(cfg: Config, flashSize: nat, s: Session, e: Event)
    requires cfg.Valid(flashSize) && s.used <= |s.buf|
  {
    match e
    case Packet(data) =>
      && s.started && !s.bufferCheck && !PlainRefused(s, data)
      && PlainFlushes(s.(used := s.used + |data|))
    case StartDfu(header) => |header| == 16 && Records(cfg, ParseStart(cfg, flashSize, header))
    case ReportCrc(size, crc) => ReportAccepted(s, size, crc)
    case CheckImage => !ChecksBank(cfg, s)
    case _ => false
  }

  ghost predicate Step(cfg: Config, s: Session, e: Event, t: Outcome, s': Session, note: Note)
    requires s.Wf(cfg)
  {
    && !s.rebooted
    && match e
       case Packet(data) =>
         && note == Silent
         && if !s.started then s' == s
            else if s.bufferCheck then s' == CollectPacket(s, data)
            else PlainPacket(cfg, s, data, t, s')
       case StartDfu(header) =>
         |header| == 16 && Start(cfg, s, ParseStart(cfg, |s.flash.cells|, header), s', note)
       case ReceiveInfo(imageId, offset) => offset < U32_RANGE && s' == Receive(s, imageId, offset) && note == Silent
       case ReportTarget(imageId) => s' == s.(imageId := imageId, cur := 0) && note == StatusAt(ARV_SUCCESS, 0)
       case EnableBufferCheck => s' == s.(bufferCheck := true) && note == Status(ARV_SUCCESS)
       case ReportCrc(size, crc) => CrcReport(cfg, s, size, crc, t, s', note)
       case SelectImage(imageId) => s' == s.(imageId := imageId) && note == Silent
       case CheckImage => Validation(cfg, s, t.ok1, t.f1, s', note)
       case Activate => Activation(cfg, s, s') && note == Silent
  }

  lemma CommitKeepsShape(cfg: Config, s: Session, t: Outcome, s': Session, note: Note)
    requires s.Wf(cfg) && Commit(cfg, s, t, s', note)
    ensures s'.Wf(cfg) && |s'.slots| == |s.slots| && |s'.flash.cells| == |s.flash.cells| && s'.used == 0
  {
    hide StoreEffect, Precheck, MarkNotReady, DecryptedBuffer;
    assert |MarkNotReady(cfg, DecryptedBuffer(cfg, s), s.cur, s.used)| == BUFFER_SIZE;
  }

  lemma StepKeepsShape(cfg: Config, s: Session, e: Event, t: Outcome, s': Session, note: Note)
    requires s.Wf(cfg) && Step(cfg, s, e, t, s', note)
    ensures s'.Wf(cfg) && |s'.slots| == |s.slots| && |s'.flash.cells| == |s.flash.cells|
  {
    hide StoreEffect, Precheck, Commit, ParseStart, MarkNotReady, Decrypted;
    if e.ReportCrc? && e.size <= BUFFER_SIZE && SizeAgrees(s, e.size) && CrcAgrees(s, e.crc) {
      CommitKeepsShape(cfg, s, t, s', note);
    }
  }

  // ---------- the control point ----------

  datatype Command = Command(event: Event) | Ignored

  /** The commands of the control point that concern the session, by opcode; those with a fixed length are
      ignored when it is wrong. */
  function Decode(value: seq<byte>): Command {
    if value == [] then Ignored
    else
      match Val(value[0])
      case 1 => if |value| == 17 then Command(StartDfu(value[1..17])) else Ignored
      case 2 => if |value| == 7 then Command(ReceiveInfo(Le16(value, 1), Le32(value, 3))) else Ignored
      case 3 => if |value| == 3 then Command(SelectImage(Le16(value, 1))) else Ignored
      case 4 => Command(Activate)
      case 6 => if |value| == 3 then Command(ReportTarget(Le16(value, 1))) else Ignored
      case 9 => Command(EnableBufferCheck)
      case 10 => if |value| >= 5 then Command(ReportCrc(Le16(value, 1), BufferCheck.HalfWord(value[3], value[4]))) else Ignored
      case _ => Ignored
  }
}
