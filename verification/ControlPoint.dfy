/** The wire form of the commands: what bytes a client writes to the control point, and what they do. */
module ControlPoint {
  import opened Bytes
  import opened DfuFlash
  import opened DfuProtocol
  import BufferCheck

  // ---------- which bytes say what ----------

  /** These bytes are this command: an opcode, and its fields, least significant byte first. */
  predicate Says(value: seq<byte>, e: Event) {
    match e
    case StartDfu(header) => |header| == 16 && value == [1] + header
    case ReceiveInfo(imageId, offset) =>
      imageId < 0x1_0000 && offset < U32_RANGE && value == [2] + Bytes16(imageId) + Bytes32(offset)
    case SelectImage(imageId) => imageId < 0x1_0000 && value == [3] + Bytes16(imageId)
    case Activate => value != [] && value[0] == 4
    case ReportTarget(imageId) => imageId < 0x1_0000 && value == [6] + Bytes16(imageId)
    case EnableBufferCheck => value != [] && value[0] == 9
    case ReportCrc(size, crc) =>
      && size < 0x1_0000 && 5 <= |value| && value[..3] == [10] + Bytes16(size)
      && crc == BufferCheck.HalfWord(value[3], value[4])
    case _ => false
  }

  lemma SmallVals()
    ensures Val(1) == 1 && Val(2) == 2 && Val(3) == 3 && Val(4) == 4 && Val(6) == 6 && Val(9) == 9 && Val(10) == 10
  {
  }

  /** An id, and an id with an offset, behind the opcode. */
  lemma IdBehind(value: seq<byte>, id: nat)
    requires 3 <= |value| && id < 0x1_0000
    ensures Le16(value, 1) == id <==> value[1..3] == Bytes16(id)
  {
    Le16Exactly(value, 1, id);
  }

  lemma Joined1(value: seq<byte>, op: byte, id: nat)
    requires id < 0x1_0000
    ensures value == [op] + Bytes16(id) <==> |value| == 3 && value[0] == op && value[1..3] == Bytes16(id)
  {
    hide Bytes16;
    if |value| == 3 {
      assert value == [value[0]] + value[1..3];
    }
  }

  lemma Joined2(value: seq<byte>, op: byte, id: nat, offset: nat)
    requires id < 0x1_0000 && offset < U32_RANGE
    ensures value == [op] + Bytes16(id) + Bytes32(offset) <==>
            |value| == 7 && value[0] == op && value[1..3] == Bytes16(id) && value[3..7] == Bytes32(offset)
  {
    hide Bytes16, Bytes32;
    if |value| == 7 {
      assert value == [value[0]] + value[1..3] + value[3..7];
    }
  }

  lemma Joined3(value: seq<byte>, op: byte, size: nat)
    requires size < 0x1_0000 && 5 <= |value|
    ensures value[..3] == [op] + Bytes16(size) <==> value[0] == op && value[1..3] == Bytes16(size)
  {
    hide Bytes16;
    assert value[..3] == [value[0]] + value[1..3];
  }

  lemma Joined4(value: seq<byte>, op: byte, header: seq<byte>)
    requires |header| == 16
    ensures value == [op] + header <==> |value| == 17 && value[0] == op && value[1..17] == header
  {
    if |value| == 17 {
      assert value == [value[0]] + value[1..17];
    }
  }

  /** The service takes these bytes for this command and for no other; everything else it ignores. */
  lemma DecodeExactly(value: seq<byte>, e: Event)
    ensures Decode(value) == Command(e) <==> Says(value, e)
  {
    hide Le16, Le32, Bytes16, Bytes32, BufferCheck.HalfWord;
    if value != [] {
      SmallVals();
      OpcodeVals(value[0]);
      hide Val;
      match e
      case StartDfu(header) =>
        if |header| == 16 {
          Joined4(value, 1, header);
        }
      case ReceiveInfo(id, offset) => ReceiveDecodes(value, id, offset);
      case SelectImage(id) => IdDecodes(value, 3, id);
      case ReportTarget(id) => IdDecodes(value, 6, id);
      case ReportCrc(size, crc) => ReportDecodes(value, size);
      case _ =>
    }
  }

  lemma OpcodeVals(b: byte)
    ensures Val(b) == 1 <==> b == 1
    ensures Val(b) == 2 <==> b == 2
    ensures Val(b) == 3 <==> b == 3
    ensures Val(b) == 4 <==> b == 4
    ensures Val(b) == 6 <==> b == 6
    ensures Val(b) == 9 <==> b == 9
    ensures Val(b) == 10 <==> b == 10
  {
    SmallVals();
    ValDiffers(b, 1);
    ValDiffers(b, 2);
    ValDiffers(b, 3);
    ValDiffers(b, 4);
    ValDiffers(b, 6);
    ValDiffers(b, 9);
    ValDiffers(b, 10);
  }

  lemma IdDecodes(value: seq<byte>, op: byte, id: nat)
    ensures |value| == 3 && value[0] == op && Le16(value, 1) == id <==> id < 0x1_0000 && value == [op] + Bytes16(id)
  {
    hide Le16, Bytes16;
    if id < 0x1_0000 {
      Joined1(value, op, id);
      if |value| == 3 {
        IdBehind(value, id);
      }
    }
  }

  lemma ReceiveDecodes(value: seq<byte>, id: nat, offset: nat)
    ensures |value| == 7 && value[0] == 2 && Le16(value, 1) == id && Le32(value, 3) == offset <==>
            id < 0x1_0000 && offset < U32_RANGE && value == [2] + Bytes16(id) + Bytes32(offset)
  {
    hide Le16, Le32, Bytes16, Bytes32;
    if id < 0x1_0000 && offset < U32_RANGE {
      Joined2(value, 2, id, offset);
      if |value| == 7 {
        IdBehind(value, id);
        Le32Exactly(value, 3, offset);
      }
    }
  }

  lemma ReportDecodes(value: seq<byte>, size: nat)
    ensures |value| >= 5 && value[0] == 10 && Le16(value, 1) == size <==>
            size < 0x1_0000 && 5 <= |value| && value[..3] == [10] + Bytes16(size)
  {
    hide Le16, Bytes16;
    if size < 0x1_0000 && 5 <= |value| {
      Joined3(value, 10, size);
      IdBehind(value, size);
    }
  }

  // ---------- START_DFU ----------

  /** The control header of an image, and the mode byte with its padding. */
  datatype StartHeader = StartHeader(crc16: seq<byte>, icType: nat, secureVersion: byte, flags: seq<byte>, imageId: nat,
                                     payloadLen: nat, rest: seq<byte>)
  {
    predicate Valid() {
      && |crc16| == 2 && icType < 256 && |flags| == 2 && imageId < 0x1_0000 && payloadLen < U32_RANGE && |rest| == 4
    }

    function Encode(): (s: seq<byte>)
      requires Valid()
      ensures |s| == 16
    {
      crc16 + [ByteOf(icType), secureVersion] + flags + Bytes16(imageId) + Bytes32(payloadLen) + rest
    }
  }

  lemma EncodedFields(h: StartHeader)
    requires h.Valid()
    ensures var s := h.Encode();
            s[2] == ByteOf(h.icType) && s[6..8] == Bytes16(h.imageId) && s[8..12] == Bytes32(h.payloadLen)
  {
    hide Bytes16, Bytes32, ByteOf;
  }

  /** The service reads the chip, the id and the length the client has put there, encrypted or not. */
  lemma StartHeaderIsRead(cfg: Config, flashSize: nat, enc: seq<byte> -> seq<byte>, h: StartHeader, header: seq<byte>)
    requires cfg.Valid(flashSize) && KeyMatches(cfg, enc) && h.Valid() && Sent(cfg, enc, h.Encode(), header)
    ensures |header| == 16 && ParseStart(cfg, flashSize, header) == StartInfo(h.icType, h.imageId, h.payloadLen)
  {
    hide Le16, Le32, Bytes16, Bytes32, Val, ByteOf, KeyMatches, Sent, Decrypted;
    SentIsRecovered(cfg, flashSize, enc, h.Encode(), header);
    EncodedFields(h);
    Le16Exactly(h.Encode(), 6, h.imageId);
    Le32Exactly(h.Encode(), 8, h.payloadLen);
  }

  /** START_DFU is answered with success exactly for this chip and a known image. From then on packets count, and
      in single-bank mode the image has its slot, right behind the one before. */
  lemma StartAnswered(cfg: Config, enc: seq<byte> -> seq<byte>, s: Session, h: StartHeader, header: seq<byte>, t: Outcome,
                      s': Session, note: Note)
    requires s.Wf(cfg) && KeyMatches(cfg, enc) && h.Valid() && Sent(cfg, enc, h.Encode(), header)
    requires Step(cfg, s, StartDfu(header), t, s', note)
    ensures note == Status(ARV_SUCCESS) <==>
              h.icType == cfg.icType && (h.imageId == cfg.userData || h.imageId == cfg.userData2 || cfg.ota <= h.imageId < cfg.imageMax)
    ensures note != Status(ARV_SUCCESS) ==> note == Status(ARV_INVALID_PARAMETER) && s'.started == s.started && s'.slots == s.slots
    ensures s'.imageId == h.imageId && s'.total == U32(h.payloadLen + cfg.headerSize)
    ensures note == Status(ARV_SUCCESS) ==> s'.started
    ensures note == Status(ARV_SUCCESS) && !cfg.bankSwitch && h.imageId != cfg.userData && h.imageId != cfg.userData2 ==>
              && s.num < |s.slots| == |s'.slots|
              && s'.slots[s.num].imageId == h.imageId && s'.slots[s.num].size == U32(h.payloadLen + cfg.headerSize)
              && s'.slots[s.num].offset == (if s.num == 0 then 0 else U32(s.slots[s.num - 1].offset + s.slots[s.num - 1].size))
              && forall i :: 0 <= i < |s.slots| && i != s.num ==> s'.slots[i] == s.slots[i]
  {
    hide KeyMatches, Sent, ParseStart;
    StartHeaderIsRead(cfg, |s.flash.cells|, enc, h, header);
  }

  // ---------- the commands without an answer of their own ----------

  /** What the short commands do, over the wire: RECEIVE_FW_IMAGE_INFO goes to an offset, and at 0 and behind the
      control header starts the buffer and the resend point over; VALID_FW and REPORT_TARGET_INFO name the image
      that what follows is about, the latter going back to offset 0; and BUFFER_CHECK_EN turns buffer check on.
      Nothing else changes. */
  lemma ShortCommands(cfg: Config, s: Session, value: seq<byte>, id: nat, offset: nat, t: Outcome, s': Session, note: Note)
    requires s.Wf(cfg) && id < 0x1_0000 && offset < U32_RANGE
    requires Decode(value).Command? && Step(cfg, s, Decode(value).event, t, s', note)
    ensures value == [2] + Bytes16(id) + Bytes32(offset) ==>
              s' == if offset == 0 || offset == 12 then s.(imageId := id, cur := offset, used := 0, resend := 0)
                    else s.(imageId := id, cur := offset)
    ensures value == [3] + Bytes16(id) ==> s' == s.(imageId := id)
    ensures value == [6] + Bytes16(id) ==> s' == s.(imageId := id, cur := 0) && note == StatusAt(ARV_SUCCESS, 0)
    ensures value != [] && value[0] == 9 ==> s' == s.(bufferCheck := true) && note == Status(ARV_SUCCESS)
  {
    hide Bytes16, Bytes32, Decode, CrcReport, Start, ParseStart, Validation, PlainPacket, Activation;
    DecodeExactly(value, ReceiveInfo(id, offset));
    DecodeExactly(value, SelectImage(id));
    DecodeExactly(value, ReportTarget(id));
    DecodeExactly(value, EnableBufferCheck);
  }

  // ---------- packets and their report ----------

  /** With buffer check a packet of a started image is taken exactly if the 2048 bytes hold it, up to the last one,
      and joins those before it; one that does not fit ends the session, and one before START_DFU is ignored. */
  lemma PacketTakenExactly(cfg: Config, s: Session, data: seq<byte>, t: Outcome, s': Session, note: Note)
    requires s.Wf(cfg) && s.bufferCheck && Step(cfg, s, Packet(data), t, s', note)
    ensures !s.started ==> s' == s
    ensures s.started && s.used + |data| <= 2048 ==>
              s'.used == s.used + |data| && s'.buf[..s'.used] == s.buf[..s.used] + data && s' == s.(buf := s'.buf, used := s'.used)
    ensures s.started && s.used + |data| > 2048 ==> s' == s.(rebooted := true)
  {
    hide Store;
  }

  /** A report as it comes over the wire is accepted exactly when the number of bytes is the reported one, or they
      complete the image, and the two check bytes are the XOR of the odd and of the even bytes of the buffer. */
  lemma ReportAcceptedExactly(cfg: Config, s: Session, value: seq<byte>, size: nat, t: Outcome, s': Session, note: Note)
    requires s.Wf(cfg) && 5 <= |value| && size < 0x1_0000 && value[..3] == [10] + Bytes16(size)
    requires Decode(value).Command? && Step(cfg, s, Decode(value).event, t, s', note)
    ensures Acknowledged(note) || RolledBack(note) <==>
              && size <= 2048
              && (size == s.used || U32(s.cur + s.used) == s.total)
              && s.used % 2 == 0
              && value[3] == BufferCheck.Lane(s.buf[..s.used], 1) && value[4] == BufferCheck.Lane(s.buf[..s.used], 0)
    ensures !Acknowledged(note) && !RolledBack(note) ==> s' == s.(used := 0) && note.StatusAt? && note.offset == s.cur
  {
    hide UpdateEffect, RetryEffect, DecryptedBuffer, NextResend, BufferCheck.HalfWord, BufferCheck.Lane, Bytes16, Decode;
    DecodeExactly(value, ReportCrc(size, BufferCheck.HalfWord(value[3], value[4])));
    BufferCheck.SwapHalfWord(value[3], value[4], BufferCheck.Lane(s.buf[..s.used], 1), BufferCheck.Lane(s.buf[..s.used], 0));
  }
}
