/** The handlers of subsys/dfu/dfu_service.c, each proved to be a step of DfuProtocol. The application callback is
    taken to succeed; a reboot ends the session. */
module DfuService {
  import opened Bytes
  import opened Nor
  import opened DfuFlash
  import opened ImageHash
  import opened BlockCipher
  import opened DfuProtocol
  import BufferCheck

  class Service {
    const cfg: Config
    const flash: NorFlash
    const tempBuffer: array<byte>
    const imageInfo: array<Slot>
    var usedSize: nat
    var imageTotalLength: nat
    var curOffset: nat
    var resendOffset: nat
    var imageId: nat
    var otaProcedure: bool
    var bufferCheckEn: bool
    var tempImageNum: nat
    var rebooted: bool

    ghost function View(): Session
      reads this, flash, tempBuffer, imageInfo
    {
      Session(FlashState(flash.cells, flash.faults), tempBuffer[..], usedSize, imageTotalLength, curOffset, resendOffset,
              imageId, otaProcedure, bufferCheckEn, imageInfo[..], tempImageNum, rebooted)
    }

    ghost predicate Valid()
      reads this, flash, tempBuffer, imageInfo
    {
      View().Wf(cfg) && tempBuffer as object != imageInfo
    }

    /** The service as it is before the first command. */
    constructor (cfg: Config, flash: NorFlash, slotCount: nat)
      requires cfg.Valid(|flash.cells|) && cfg.authSize + CTRL_HEADER_SIZE <= BUFFER_SIZE
      ensures Valid() && this.flash == flash && this.cfg == cfg
      ensures View() == Session(FlashState(flash.cells, flash.faults), seq(BUFFER_SIZE, _ => 0), 0, 0, 0, 0, 0, false, false,
                                seq(slotCount, _ => Slot(0, 0, 0)), 0, false)
    {
      this.cfg, this.flash := cfg, flash;
      tempBuffer := new byte[BUFFER_SIZE](_ => 0);
      imageInfo := new Slot[slotCount](_ => Slot(0, 0, 0));
      usedSize, imageTotalLength, curOffset, resendOffset, imageId, tempImageNum := 0, 0, 0, 0, 0, 0;
      otaProcedure, bufferCheckEn, rebooted := false, false, false;
      new;
      assert tempBuffer[..] == seq(BUFFER_SIZE, _ => 0);
      assert imageInfo[..] == seq(slotCount, _ => Slot(0, 0, 0));
    }

    /** memcpy of a packet behind the buffered data. */
    method StorePacket(data: seq<byte>)
      requires usedSize + |data| <= tempBuffer.Length
      modifies this`usedSize, tempBuffer
      ensures tempBuffer[..] == Store(old(tempBuffer[..]), old(usedSize), data) && usedSize == old(usedSize) + |data|
    {
      forall k | 0 <= k < |data| {
        tempBuffer[usedSize + k] := data[k];
      }
      usedSize := usedSize + |data|;
    }

    /** dfu_service_handle_packet_req */
    method PacketReq(value: array<byte>, length: nat) returns (ghost t: Outcome)
      requires Valid() && !rebooted && length <= value.Length && value != tempBuffer && value as object != imageInfo
      requires UsesSlot(cfg, |flash.cells|, View(), Packet(value[..length])) ==> tempImageNum < imageInfo.Length
      modifies this, flash, tempBuffer, value
      ensures Step(cfg, old(View()), Packet(old(value[..length])), t, View(), Silent) && Valid()
    {
      hide Decrypted, Store, BufferCheck.CheckValue;
      t := Outcome(Updated, FlashState([], 0), [], false, FlashState([], 0), false, FlashState([], 0));
      if !otaProcedure {
        return;
      }
      if bufferCheckEn {
        if usedSize + length > BUFFER_SIZE {
          rebooted := true;
        } else {
          StorePacket(value[..length]);
        }
      } else {
        t := PlainPacketReq(value, length);
      }
    }

    /** A packet is decrypted where it was received. */
    method DecryptPacket(value: array<byte>, length: nat)
      requires cfg.Valid(|flash.cells|) && length <= value.Length
      modifies value
      ensures value[..length] == Decrypted(cfg, old(value[..length])) && |Decrypted(cfg, old(value[..length]))| == length
    {
      hide ByBlocks;
      DecryptedLength(cfg, |flash.cells|, value[..length]);
      if cfg.encrypted {
        DecryptImage(cfg.decrypt, value, value, length);
      }
    }

    method PlainPacketReq(value: array<byte>, length: nat) returns (ghost t: Outcome)
      requires Valid() && length <= value.Length
      requires otaProcedure && !bufferCheckEn
      requires UsesSlot(cfg, |flash.cells|, View(), Packet(value[..length])) ==> tempImageNum < imageInfo.Length
      requires value != tempBuffer && value as object != imageInfo
      modifies this, flash, tempBuffer, value
      ensures PlainPacket(cfg, old(View()), old(value[..length]), t, View())
    {
      hide Store, Decrypted, Flush;
      ghost var s := View();
      t := Outcome(Updated, FlashState([], 0), [], false, FlashState([], 0), false, FlashState([], 0));
      var maxBufferSize := BUFFER_SIZE - BUFFER_SIZE % PACKET_SIZE;
      if usedSize + length > maxBufferSize || U32(curOffset + usedSize + length) > imageTotalLength {
        rebooted := true;
        return;
      }
      DecryptPacket(value, length);
      assert View() == s;
      StorePacket(value[..length]);
      if usedSize == maxBufferSize || U32(curOffset + usedSize) == imageTotalLength {
        t := FlushBuffer();
      }
    }

    method FlushBuffer() returns (ghost t: Outcome)
      requires Valid() && tempImageNum < imageInfo.Length
      modifies this`curOffset, this`usedSize, this`rebooted, flash, tempBuffer
      ensures Flush(cfg, old(View()), t, View())
    {
      hide UpdateEffect;
      var result := DfuUpdate(cfg, flash, imageId, curOffset, imageInfo[tempImageNum].offset, usedSize, tempBuffer);
      t := Outcome(result, FlashState(flash.cells, flash.faults), tempBuffer[..], false, FlashState([], 0), false, FlashState([], 0));
      if result == Updated {
        curOffset := U32(curOffset + usedSize);
        usedSize := 0;
      } else {
        rebooted := true;
      }
    }

    /** dfu_buffer_check_process */
    method BufferCheckProcess(bufferCheckSize: nat, bufferCrc: bv16) returns (note: Note, ghost t: Outcome)
      requires Valid() && !rebooted
      requires ReportAccepted(View(), bufferCheckSize, bufferCrc) ==> tempImageNum < imageInfo.Length
      modifies this, flash, tempBuffer
      ensures Step(cfg, old(View()), ReportCrc(bufferCheckSize, bufferCrc), t, View(), note) && Valid()
    {
      hide Commit, BufferCheck.CheckValue;
      ghost var s := View();
      t := Outcome(Updated, FlashState([], 0), [], false, FlashState([], 0), false, FlashState([], 0));
      if bufferCheckSize > BUFFER_SIZE {
        usedSize := 0;
        note := StatusAt(ARV_INVALID_PARAMETER, curOffset);
      } else if usedSize == bufferCheckSize || U32(curOffset + usedSize) == imageTotalLength {
        assert tempBuffer[..][..usedSize] == tempBuffer[..usedSize];
        var crcOk := BufferCheck.CheckBufCrc(tempBuffer, usedSize, bufferCrc);
        if crcOk {
          note, t := CommitBuffer();
          CommitKeepsShape(cfg, s, t, View(), note);
        } else {
          usedSize := 0;
          note := StatusAt(ARV_CRC_ERROR, curOffset);
        }
      } else {
        usedSize := 0;
        note := StatusAt(ARV_LENGTH_ERROR, curOffset);
      }
    }

    /** The buffered data is decrypted in place. */
    method DecryptBuffer()
      requires Valid()
      modifies tempBuffer
      ensures tempBuffer[..] == DecryptedBuffer(cfg, old(View()))
    {
      hide ByBlocks;
      if cfg.encrypted {
        assert tempBuffer[..][..usedSize] == tempBuffer[..usedSize] && tempBuffer[..][usedSize..] == tempBuffer[usedSize..];
        DecryptImage(cfg.decrypt, tempBuffer, tempBuffer, usedSize);
      }
    }

    /** The data is in the flash: go on behind it. */
    method Advance() returns (note: Note)
      modifies this`curOffset, this`usedSize, this`resendOffset
      ensures curOffset == U32(old(curOffset) + old(usedSize)) && usedSize == 0
      ensures resendOffset == NextResend(old(resendOffset), curOffset)
      ensures note == StatusAt(ARV_SUCCESS, curOffset)
    {
      curOffset := U32(curOffset + usedSize);
      if U32(curOffset - resendOffset) >= SECTOR {
        resendOffset := U32(resendOffset + SECTOR);
      }
      usedSize := 0;
      note := StatusAt(ARV_SUCCESS, curOffset);
    }

    /** The buffer has arrived intact: decrypt it, write it, and on failure recover the sector at the resend point. */
    method CommitBuffer() returns (note: Note, ghost t: Outcome)
      requires Valid() && tempImageNum < imageInfo.Length
      modifies this`curOffset, this`usedSize, this`resendOffset, flash, tempBuffer
      ensures Commit(cfg, old(View()), t, View(), note)
    {
      hide UpdateEffect, RetryEffect, DecryptedBuffer, NextResend, U32;
      ghost var s := View();
      DecryptBuffer();
      var result := DfuUpdate(cfg, flash, imageId, curOffset, imageInfo[tempImageNum].offset, usedSize, tempBuffer);
      ghost var f1, buf := FlashState(flash.cells, flash.faults), tempBuffer[..];
      assert UpdateEffect(cfg, s.flash, s.imageId, s.cur, s.slots[s.num].offset, s.used, DecryptedBuffer(cfg, s), result, f1, buf);
      if result == Updated {
        note := Advance();
        t := Outcome(result, f1, buf, false, f1, false, f1);
      } else {
        var ok, ok2, f2, f3 := RecoverSectors();
        t := Outcome(result, f1, buf, ok, f2, ok2, f3);
        note := StatusAt(if ok && (ok2 || U32(curOffset - resendOffset) <= SECTOR) then ARV_PROG_ERROR else ARV_ERASE_ERROR, resendOffset);
        usedSize := 0;
        curOffset := resendOffset;
        assert tempBuffer[..] == buf && imageInfo[..] == s.slots;
      }
    }

    /** Up to two sectors from the resend point on; the second only if data had got that far. */
    method RecoverSectors() returns (ok1: bool, ok2: bool, ghost f2: FlashState, ghost f3: FlashState)
      modifies flash
      ensures RetryEffect(cfg, FlashState(old(flash.cells), old(flash.faults)), imageId, resendOffset, ok1, f2)
      ensures if !ok1 || U32(curOffset - resendOffset) <= SECTOR then FlashState(flash.cells, flash.faults) == f2
              else RetryEffect(cfg, f2, imageId, U32(resendOffset + SECTOR), ok2, f3) && FlashState(flash.cells, flash.faults) == f3
    {
      hide RetryEffect;
      ok1 := EraseSectorWithRetry(cfg, flash, imageId, resendOffset);
      f2 := FlashState(flash.cells, flash.faults);
      f3 := f2;
      ok2 := false;
      if ok1 && U32(curOffset - resendOffset) > SECTOR {
        ok2 := EraseSectorWithRetry(cfg, flash, imageId, U32(resendOffset + SECTOR));
        f3 := FlashState(flash.cells, flash.faults);
      }
    }

    /** START_DFU: parse the control header and record the image in the current slot. */
    method StartDfuReq(header: seq<byte>) returns (note: Note)
      requires Valid() && !rebooted && |header| == 16
      requires Records(cfg, ParseStart(cfg, |flash.cells|, header)) ==> tempImageNum < imageInfo.Length
      modifies this, imageInfo
      ensures Start(cfg, old(View()), ParseStart(cfg, |flash.cells|, header), View(), note) && Valid()
    {
      hide Val, Decrypted;
      ghost var s := View();
      var info := ParseStart(cfg, |flash.cells|, header);
      imageId := info.imageId;
      imageTotalLength := U32(info.payloadLen + cfg.headerSize);
      if info.icType != cfg.icType || !cfg.KnownImage(imageId) {
        return Status(ARV_INVALID_PARAMETER);
      }
      otaProcedure := true;
      if !UserImage(cfg, imageId) && !cfg.bankSwitch {
        var offset := 0;
        if tempImageNum != 0 {
          var last := imageInfo[tempImageNum - 1];
          offset := U32(last.offset + last.size);
        }
        imageInfo[tempImageNum] := Slot(imageId, imageTotalLength, offset);
        assert imageInfo[..] == s.slots[s.num := SlotFor(s, imageId, imageTotalLength)];
      }
      return Status(ARV_SUCCESS);
    }

    /** RECEIVE_FW_IMAGE_INFO */
    method ReceiveImageInfo(imageId: nat, offset: nat)
      requires Valid() && offset < U32_RANGE
      modifies this
      ensures View() == Receive(old(View()), imageId, offset) && Valid()
    {
      this.imageId := imageId;
      curOffset := offset;
      if curOffset == 0 || curOffset == CTRL_HEADER_SIZE {
        usedSize := 0;
        resendOffset := 0;
      }
    }

    /** dfu_service_handle_valid_fw, run by the application task after VALID_FW */
    method HandleValidFw() returns (note: Note, ghost t: Outcome)
      requires Valid() && !rebooted
      requires ChecksBank(cfg, View()) || tempImageNum < imageInfo.Length
      modifies this`tempImageNum, flash
      ensures Step(cfg, old(View()), CheckImage, t, View(), note) && Valid()
    {
      hide CheckEffect;
      ghost var s := View();
      var whole := cfg.bankSwitch || UserImage(cfg, imageId);
      var ok;
      if whole {
        ok := CheckChecksum(cfg, flash, imageId, 0);
      } else {
        ok := CheckChecksum(cfg, flash, imageInfo[tempImageNum].imageId, imageInfo[tempImageNum].offset);
      }
      ghost var f := FlashState(flash.cells, flash.faults);
      t := Outcome(Updated, f, [], ok, f, false, f);
      assert imageInfo[..] == s.slots && tempBuffer[..] == s.buf;
      if ok && !whole {
        tempImageNum := U8(tempImageNum + 1);
      }
      note := Status(if ok then ARV_SUCCESS else ARV_CRC_ERROR);
      CheckKeepsSize(cfg, s, t, View(), note);
    }

    /** dfu_service_handle_active_image: every validated slot is made ready. */
    method HandleActiveImage()
      requires Valid()
      modifies flash
      ensures Activation(cfg, old(View()), View()) && Valid()
    {
      hide ReadyEffect, ReadiedFirst;
      ghost var s := View();
      var base := cfg.BankOf(imageId).addr;
      if !cfg.bankSwitch {
        NoneReadied(cfg, s.flash, base, s.slots);
        var i := 0;
        while i < tempImageNum
          invariant 0 <= i <= tempImageNum && |flash.cells| == |s.flash.cells|
          invariant ReadiedFirst(cfg, s.flash, base, s.slots, i, FlashState(flash.cells, flash.faults))
        {
          ghost var now := FlashState(flash.cells, flash.faults);
          assert imageInfo[i] == s.slots[i];
          SetReady(cfg, flash, U32(base + imageInfo[i].offset));
          ReadyOneMore(cfg, s.flash, base, s.slots, i, now, FlashState(flash.cells, flash.faults));
          ReadiedSize(cfg, s.flash, base, s.slots, i + 1, FlashState(flash.cells, flash.faults));
          i := i + 1;
        }
      }
      assert imageInfo[..] == s.slots && tempBuffer[..] == s.buf;
    }

    /** dfu_service_handle_control_point_req */
    method ControlPointReq(value: seq<byte>) returns (note: Note, ghost t: Outcome)
      requires Valid() && !rebooted
      requires match Decode(value)
               case Ignored => true
               case Command(e) => UsesSlot(cfg, |flash.cells|, View(), e) ==> tempImageNum < imageInfo.Length
      modifies this, flash, tempBuffer, imageInfo
      ensures match Decode(value)
              case Ignored => View() == old(View()) && note == Silent
              case Command(e) => Step(cfg, old(View()), e, t, View(), note)
      ensures Valid()
    {
      hide Start, Commit, CrcReport, Activation, Validation, PlainPacket, Decode;
      DecodeShape(value);
      note := Silent;
      t := Outcome(Updated, FlashState([], 0), [], false, FlashState([], 0), false, FlashState([], 0));
      match Decode(value)
      case Ignored =>
      case Command(StartDfu(header)) => note := StartDfuReq(header);
      case Command(ReceiveInfo(id, offset)) => ReceiveImageInfo(id, offset);
      case Command(SelectImage(id)) => imageId := id;
      case Command(Activate) => HandleActiveImage();
      case Command(ReportTarget(id)) =>
        imageId := id;
        curOffset := 0;
        note := StatusAt(ARV_SUCCESS, 0);
      case Command(EnableBufferCheck) =>
        bufferCheckEn := true;
        note := Status(ARV_SUCCESS);
      case Command(ReportCrc(size, crc)) => note, t := BufferCheckProcess(size, crc);
      case Command(_) =>
    }
  }

  lemma NoneReadied(cfg: Config, f: FlashState, base: nat, slots: seq<Slot>)
    ensures ReadiedFirst(cfg, f, base, slots, 0, f)
  {
  }

  lemma ReadiedSize(cfg: Config, before: FlashState, base: nat, slots: seq<Slot>, n: nat, after: FlashState)
    requires n <= |slots| && ReadiedFirst(cfg, before, base, slots, n, after)
    ensures |after.cells| == |before.cells|
  {
  }

  lemma CheckKeepsSize(cfg: Config, s: Session, t: Outcome, s': Session, note: Note)
    requires s.Wf(cfg) && Validation(cfg, s, t.ok1, t.f1, s', note)
    ensures |s'.flash.cells| == |s.flash.cells|
  {
    hide ChecksumHolds, HashInRange;
  }

  /** The control point only carries these commands. */
  lemma DecodeShape(value: seq<byte>)
    ensures match Decode(value)
            case Ignored => true
            case Command(StartDfu(header)) => |header| == 16
            case Command(ReceiveInfo(_, offset)) => offset < U32_RANGE
            case Command(e) => !e.Packet? && !e.CheckImage?
  {
    hide Val;
  }
}
