/** The stateful parser of applications/matter_common/matter_ota.c, method by method, against the
    functions of MatterParser. What malloc, dfu_write_data_to_flash and dfu_checksum answer is passed in. */
module MatterOta {
  import opened Bytes
  import opened MpHeader
  import opened MatterParser
  import opened MatterRuns
  import opened MatterFinalize
  import PopCount

  class MatterOtaDb {
    const buf: array<byte>
    const activeBank: ActiveBank
    var bufOffset: nat
    var hasSubImageHeader: bool
    var subImageHeader: seq<byte>
    var subImageNum: nat
    var curImageIndex: nat
    var curDownloadSize: nat
    var curImageId: nat
    var curImagePayloadSize: nat
    var isDataValid: bool
    var state: Stage
    var log: seq<StoreOp>      // what the flash layer has been told to do

    ghost function View(): Parser
      reads this, buf
    {
      Parser(buf[..], bufOffset, hasSubImageHeader, subImageHeader, subImageNum, curImageIndex, curDownloadSize,
             curImageId, curImagePayloadSize, isDataValid, activeBank, state, log)
    }

    ghost predicate Valid()
      reads this, buf
    {
      View().Wf()
    }

    /** rtk_matter_ota_prepare; the buffer keeps whatever it was allocated with. */
    constructor Prepare(bank: ActiveBank)
      ensures Valid() && fresh(buf) && Fresh(View()) && activeBank == bank
    {
      buf := new byte[BUF_SIZE];
      activeBank := bank;
      state := PackHeader;
      bufOffset, hasSubImageHeader, subImageHeader, subImageNum := 0, false, [], 0;
      curImageIndex, curDownloadSize, curImageId, curImagePayloadSize := 0, 0, 0, 0;
      isDataValid := false;
      log := [];
    }

    /** rtk_matter_ota_append */
    method Append(data: seq<byte>) returns (ok: bool)
      requires Valid()
      modifies this`bufOffset, buf
      ensures Valid()
      ensures ok <==> old(bufOffset) + |data| <= BUF_SIZE
      ensures View() == if ok then MatterParser.Append(old(View()), data) else old(View())
    {
      if bufOffset + |data| > BUF_SIZE {
        return false;
      }
      forall k | 0 <= k < |data| {
        buf[bufOffset + k] := data[k];
      }
      bufOffset := bufOffset + |data|;
      assert buf[..] == MatterParser.Append(old(View()), data).mem;
      return true;
    }

    /** The memmove that closes every stage: what follows the consumed bytes comes to the front. */
    method Consume(n: nat)
      requires n <= bufOffset <= buf.Length
      modifies this`bufOffset, buf
      ensures bufOffset == old(bufOffset) - n
      ensures buf[..] == MoveDown(old(buf[..]), n, old(bufOffset) - n)
    {
      var left := bufOffset - n;
      forall k | 0 <= k < left {
        buf[k] := buf[n + k];
      }
      bufOffset := left;
    }

    /** rtk_matter_ota_get_indicator_count */
    method GetIndicatorCount() returns (count: nat)
      requires buf.Length == BUF_SIZE
      ensures count == U8(IndicatorCount(buf[..]))
    {
      assert buf[..][INDICATOR_POS..PACK_HEADER_LEN1] == buf[INDICATOR_POS..PACK_HEADER_LEN1];
      count := PopCount.IndicatorCount(buf[INDICATOR_POS..PACK_HEADER_LEN1]);
    }

    method ProcessPackHeader(ans: Answers) returns (ok: bool)
      requires Valid()
      modifies this, buf
      ensures (View(), ok) == PackStage(old(View()), ans) && Valid()
    {
      hide IndicatorCount, MoveDown, SubHeaders;
      ghost var mem := buf[..];
      if state != PackHeader || bufOffset < PACK_HEADER_LEN1 {
        return true;
      }
      if subImageNum == 0 {
        subImageNum := GetIndicatorCount();
      }
      if subImageNum == 0 {
        return false;
      }
      if !hasSubImageHeader {
        if !ans.mallocOk {
          return false;
        }
        hasSubImageHeader := true;
      }
      assert buf[..] == mem;
      TakePackHeader(U8(PACK_HEADER_LEN1 + 12 * subImageNum));
      return true;
    }

    /** Once all of the pack header is there: keep its table of images and go on to the first of them. */
    method TakePackHeader(packHeaderLen: nat)
      requires buf.Length == BUF_SIZE && bufOffset <= BUF_SIZE
      modifies this`subImageHeader, this`bufOffset, this`curImageIndex, this`state, buf
      ensures var p := old(View());
              View() == if p.off < packHeaderLen then p
                        else p.(subHeaders := SubHeaders(p.mem, p.num), mem := MoveDown(p.mem, packHeaderLen, p.off - packHeaderLen),
                                off := p.off - packHeaderLen, idx := 0, stage := ImageHeader)
    {
      hide MoveDown, SubHeaders;
      if bufOffset >= packHeaderLen {
        subImageHeader := SubHeaders(buf[..], subImageNum);
        curImageIndex := 0;
        state := ImageHeader;
        Consume(packHeaderLen);
      }
    }

    method ProcessMpHeader() returns (ok: bool)
      requires Valid()
      modifies this, buf
      ensures (View(), ok) == HeaderStage(old(View())) && Valid()
    {
      hide ItemPos, FirstItem, MoveDown, Le16, Le32;
      ghost var mem := buf[..];
      if state != ImageHeader || bufOffset < MP_HEADER_SIZE {
        return true;
      }
      var pos := GetItemPos(ITEM_IMAGE_ID, buf);
      if pos == -1 {
        return false;
      }
      curImageId := Le16(buf[..], pos + 3);
      pos := GetItemPos(ITEM_DATA_LEN, buf);
      if pos == -1 {
        return false;
      }
      assert buf[..] == mem;
      curImagePayloadSize := Le32(buf[..], pos + 3);
      assert buf[..] == mem;
      Consume(MP_HEADER_SIZE);
      if (activeBank == Bank0 && curImageIndex < subImageNum / 2) || (activeBank == Bank1 && curImageIndex >= subImageNum / 2) {
        isDataValid := false;
      } else {
        isDataValid := true;
      }
      curDownloadSize := 0;
      state := ImagePayload;
      return true;
    }

    /** dfu_write_data_to_flash of the first len buffered bytes, if the image is wanted. */
    method WriteData(len: nat, ans: Answers) returns (ok: bool)
      requires len <= bufOffset <= buf.Length
      modifies this`log
      ensures ok <==> (isDataValid ==> ans.writeOk)
      ensures View() == old(View()).(log := log)
      ensures log == if isDataValid && ok then old(log) + [Write(curImageId, curDownloadSize, buf[..][..len])] else old(log)
    {
      if isDataValid {
        if !ans.writeOk {
          return false;
        }
        log := log + [Write(curImageId, curDownloadSize, buf[..len])];
        assert buf[..][..len] == buf[..len];
      }
      return true;
    }

    /** The payload goes on behind the buffer. */
    method ContinuePayload(ans: Answers) returns (ok: bool)
      requires Valid() && state == ImagePayload && U32(curDownloadSize + bufOffset) < curImagePayloadSize
      modifies this, buf
      ensures (View(), ok) == PayloadStage(old(View()), ans)
    {
      ok := WriteData(bufOffset, ans);
      if ok {
        curDownloadSize := U32(curDownloadSize + bufOffset);
        bufOffset := 0;
      }
    }

    /** dfu_checksum over the finished image, if it is wanted. */
    method CheckPayload(ans: Answers) returns (ok: bool)
      modifies this`log
      ensures ok <==> (isDataValid ==> ans.checksumOk)
      ensures View() == old(View()).(log := if isDataValid && ok then old(log) + [Checksum(curImageId)] else old(log))
    {
      ok := !isDataValid || ans.checksumOk;
      if isDataValid && ok {
        log := log + [Checksum(curImageId)];
      }
    }

    /** The payload is complete: go on to the next image, or to the end. */
    method NextImage(lastPktLen: nat)
      requires Valid() && state == ImagePayload && lastPktLen <= bufOffset
      modifies this`curDownloadSize, this`bufOffset, this`curImageIndex, this`state, buf
      ensures View() == Advanced(old(View()), lastPktLen)
    {
      hide MoveDown;
      curDownloadSize := U32(curDownloadSize + lastPktLen);
      curImageIndex := U8(curImageIndex + 1);
      state := if curImageIndex < subImageNum then ImageHeader else MpInfo;
      Consume(lastPktLen);
    }

    /** The payload ends in the buffer. */
    method FinishPayload(ans: Answers) returns (ok: bool)
      requires Valid() && state == ImagePayload && U32(curDownloadSize + bufOffset) >= curImagePayloadSize
      modifies this`log, this`curDownloadSize, this`bufOffset, this`curImageIndex, this`state, buf
      ensures (View(), ok) == EndPayload(old(View()), ans)
    {
      hide EndWritten;
      var lastPktLen := U32(curImagePayloadSize - curDownloadSize) % 0x1_0000;
      assert lastPktLen == LastPiece(View());
      hide LastPiece, U32;
      ok := WriteData(lastPktLen, ans);
      if ok {
        ok := CheckAndAdvance(lastPktLen, ans);
      }
    }

    method CheckAndAdvance(lastPktLen: nat, ans: Answers) returns (ok: bool)
      requires Valid() && state == ImagePayload && lastPktLen <= bufOffset
      modifies this`log, this`curDownloadSize, this`bufOffset, this`curImageIndex, this`state, buf
      ensures (View(), ok) == EndWritten(old(View()), lastPktLen, ans)
    {
      hide Advanced;
      ok := CheckPayload(ans);
      if ok {
        NextImage(lastPktLen);
      }
    }

    method ProcessPayload(ans: Answers) returns (ok: bool)
      requires Valid()
      modifies this, buf
      ensures (View(), ok) == PayloadStage(old(View()), ans) && Valid()
    {
      if state != ImagePayload {
        return true;
      }
      hide EndPayload;
      if U32(curDownloadSize + bufOffset) < curImagePayloadSize {
        ok := ContinuePayload(ans);
      } else {
        ok := FinishPayload(ans);
      }
    }

    /** rtk_matter_ota_process_block */
    method ProcessBlock(data: seq<byte>, ans: Answers) returns (ret: nat)
      requires Valid()
      modifies this, buf
      ensures (View(), ret) == Block(old(View()), data, ans) && Valid()
    {
      hide PackStage, HeaderStage, PayloadStage;
      if state == MpInfo {
        return 0;
      }
      var ok := Append(data);
      if !ok {
        return 1;
      }
      ok := ProcessPackHeader(ans);
      if !ok {
        return 2;
      }
      ok := ProcessMpHeader();
      if !ok {
        return 3;
      }
      ok := ProcessPayload(ans);
      if !ok {
        return 4;
      }
      return 0;
    }

    /** The loop of rtk_matter_ota_finalize; it needs the table of image addresses. */
    method Finalize()
      requires Valid() && 12 * subImageNum <= |subImageHeader|
      modifies this`log
      ensures log == old(log) + ReadyOps(old(View()), 0)
    {
      hide DownloadAddr;
      ghost var p := View();
      var i := 0;
      assert log + ReadyOps(p, 0) == old(log) + ReadyOps(p, 0);
      while i < subImageNum
        invariant 0 <= i <= subImageNum == p.num
        invariant log + ReadyOps(p, i) == old(log) + ReadyOps(p, 0)
        decreases subImageNum - i
      {
        if (activeBank == Bank0 && i >= subImageNum / 2) || (activeBank == Bank1 && i < subImageNum / 2) {
          var op := MakeReady(DownloadAddr(subImageHeader, i));
          assert (log + [op]) + ReadyOps(p, i + 1) == log + ([op] + ReadyOps(p, i + 1));
          log := log + [op];
        } else {
          assert [] + ReadyOps(p, i + 1) == ReadyOps(p, i + 1);
        }
        i := i + 1;
      }
      assert log + [] == log;
    }
  }
}
