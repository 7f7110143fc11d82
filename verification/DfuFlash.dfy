/** The flash update layer of subsys/dfu/dfu_flash.c: writing received image data into the temporary
    bank with lazy sector erasure, and recovering a sector after a fault. */
module DfuFlash {
  import opened Bytes
  import opened Nor

  const UPDATE_LEN := 256
  const CTRL_HEADER_SIZE := 12

  /** A region of flash; address 0 means that the image has none. */
  datatype Bank = Bank(addr: nat, size: nat)

  /** What the update code takes from headers, ROM tables and fuses that are not part of the repository. */
  datatype Config = Config(
    banks: map<nat, Bank>,                // temporary bank of each image
    bankSwitch: bool,                     // is_ota_support_bank_switch
    encrypted: bool,                      // dfu_get_enc_setting
    decrypt: seq<byte> -> seq<byte>,      // the AES block function
    sha256: seq<byte> -> seq<byte>,
    authSize: nat,                        // sizeof(T_AUTH_HEADER_FORMAT), where the control header starts
    uuidOffset: nat,                      // offsetof(T_IMG_HEADER_FORMAT, uuid)
    formatSize: nat,                      // sizeof(T_IMG_HEADER_FORMAT)
    headerSize: nat,                      // IMG_HEADER_SIZE
    hashOffset: nat,                      // of auth.image_hash
    flagByte: nat,                        // byte of the control header holding not_ready
    notReady: byte,                       // and its bit there
    ota: nat, imageMax: nat, userData: nat, userData2: nat, icType: nat)
  {
    function BankOf(imageId: nat): Bank {
      if imageId in banks then banks[imageId] else Bank(0, 0)
    }

    ghost predicate Valid(flashSize: nat) {
      && flashSize <= U32_RANGE / 2
      && (forall id :: id in banks ==> BankFits(banks[id], flashSize))
      && 4 <= flagByte < 6
      && hashOffset + 32 <= authSize
      && authSize + CTRL_HEADER_SIZE <= uuidOffset <= formatSize <= headerSize
      && headerSize < U32_RANGE
      && (forall b: seq<byte> :: |b| == 16 ==> |decrypt(b)| == 16)
    }

    predicate KnownImage(imageId: nat) {
      imageId == userData || imageId == userData2 || ota <= imageId < imageMax
    }
  }

  predicate BankFits(bank: Bank, flashSize: nat) {
    bank.addr % SECTOR == 0 && bank.size % SECTOR == 0 && bank.addr + bank.size <= flashSize
  }

  /** A point in time of the flash. */
  datatype FlashState = FlashState(cells: seq<byte>, faults: nat)

  datatype UpdateResult = Updated | BadLength | NoBuffer | NoBank | TooLarge | EraseFailed | WriteFailed

  // ---------- dfu_write ----------

  /** How many bytes dfu_write covers: its chunk counter is a uint16_t. */
  function WriteSpan(length: nat): nat {
    (length / UPDATE_LEN) % 0x1_0000 * UPDATE_LEN + length % UPDATE_LEN
  }

  lemma WriteSpanExact(length: nat)
    ensures WriteSpan(length) <= length
    ensures WriteSpan(length) == length <==> length < 0x100_0000
  {
  }

  ghost predicate WriteEffect(before: FlashState, start: nat, data: seq<byte>, ok: bool, after: FlashState) {
    && SameOutside(before.cells, after.cells, start, start + |data|)
    && before.faults <= after.faults
    && (ok && data != [] ==> start + |data| <= |after.cells| && after.cells[start..start + |data|] == data)
    && ((&& before.faults == after.faults
         && start + |data| <= |before.cells|
         && Blank(before.cells, start, start + |data|)) ==> ok)
  }

  /** One piece: program, read back, compare. */
  method WritePiece(flash: NorFlash, start: nat, data: seq<byte>) returns (ok: bool)
    modifies flash
    ensures WriteEffect(FlashState(old(flash.cells), old(flash.faults)), start, data, ok,
                        FlashState(flash.cells, flash.faults))
  {
    ok := flash.Program(start, data);
    if !ok {
      return false;
    }
    ghost var programmed := flash.cells;
    var readOk, val := flash.Read(start, |data|);
    ok := readOk && val == data;
    if start + |data| <= |old(flash.cells)| && Blank(old(flash.cells), start, start + |data|) {
      ProgramBlank(old(flash.cells), start, data);
    }
  }

  lemma WriteJoins(s0: FlashState, start: nat, data1: seq<byte>, s1: FlashState, data2: seq<byte>, ok: bool, s2: FlashState)
    requires WriteEffect(s0, start, data1, true, s1)
    requires WriteEffect(s1, start + |data1|, data2, ok, s2)
    ensures WriteEffect(s0, start, data1 + data2, ok, s2)
  {
    if ok && data1 != [] {
      var mid := start + |data1|;
      KeptSlice(s1.cells, s2.cells, mid, mid + |data2|, start, mid);
      if data2 != [] {
        JoinSlices(s2.cells, start, mid, mid + |data2|);
      } else {
        assert data1 + data2 == data1;
      }
    } else {
      assert data1 == [] ==> data1 + data2 == data2;
    }
  }

  lemma WriteNothing(s: FlashState, start: nat)
    ensures WriteEffect(s, start, [], true, s)
  {
  }

  /** A write that stops early has had no effect beyond the part it reached. */
  lemma WriteStops(s0: FlashState, start: nat, part: seq<byte>, s1: FlashState, data: seq<byte>)
    requires WriteEffect(s0, start, part, false, s1) && part <= data
    ensures WriteEffect(s0, start, data, false, s1)
  {
  }

  lemma WriteKeepsSize(s0: FlashState, start: nat, data: seq<byte>, ok: bool, s1: FlashState)
    requires WriteEffect(s0, start, data, ok, s1)
    ensures |s1.cells| == |s0.cells| && s0.faults <= s1.faults
  {
  }

  /** Addresses are uint32_t; the contract speaks about ranges that do not wrap. */
  method DfuWrite(flash: NorFlash, start: nat, length: nat, p: array<byte>) returns (ok: bool)
    requires length <= p.Length
    modifies flash
    ensures |flash.cells| == |old(flash.cells)| && flash.faults >= old(flash.faults)
    ensures start + length <= U32_RANGE ==>
              WriteEffect(FlashState(old(flash.cells), old(flash.faults)), start, p[..WriteSpan(length)], ok,
                          FlashState(flash.cells, flash.faults))
  {
    hide WriteEffect;
    WriteSpanExact(length);
    ok := WritePieces(flash, start, length / UPDATE_LEN % 0x1_0000, length % UPDATE_LEN, p);
  }

  /** So many whole pieces, and what remains. */
  method WritePieces(flash: NorFlash, start: nat, loopCnt: nat, remainSize: nat, p: array<byte>) returns (ok: bool)
    requires loopCnt * UPDATE_LEN + remainSize <= p.Length
    modifies flash
    ensures |flash.cells| == |old(flash.cells)| && flash.faults >= old(flash.faults)
    ensures start + loopCnt * UPDATE_LEN + remainSize <= U32_RANGE ==>
              WriteEffect(FlashState(old(flash.cells), old(flash.faults)), start, p[..loopCnt * UPDATE_LEN + remainSize], ok,
                          FlashState(flash.cells, flash.faults))
  {
    hide WriteEffect;
    ghost var before := FlashState(flash.cells, flash.faults);
    ghost var span := p[..loopCnt * UPDATE_LEN + remainSize];
    ghost var inRange := start + |span| <= U32_RANGE;
    WriteNothing(before, start);
    assert p[..0] == [];
    var i := 0;
    while i < loopCnt
      invariant 0 <= i <= loopCnt
      invariant |flash.cells| == |before.cells| && flash.faults >= before.faults
      invariant inRange ==>
                  WriteEffect(before, start, p[..i * UPDATE_LEN], true, FlashState(flash.cells, flash.faults))
    {
      ok := WriteNext(flash, start, i * UPDATE_LEN, UPDATE_LEN, p, before, inRange);
      i := i + 1;
      if !ok {
        if inRange {
          WriteStops(before, start, p[..i * UPDATE_LEN], FlashState(flash.cells, flash.faults), span);
        }
        return;
      }
    }
    ok := true;
    if remainSize != 0 {
      ok := WriteNext(flash, start, loopCnt * UPDATE_LEN, remainSize, p, before, inRange);
    }
  }

  /** One more piece behind what has been written. */
  method WriteNext(flash: NorFlash, start: nat, done: nat, n: nat, p: array<byte>, ghost before: FlashState, ghost inRange: bool)
    returns (ok: bool)
    requires done + n <= p.Length && |flash.cells| == |before.cells| && flash.faults >= before.faults
    requires inRange ==> start + done + n <= U32_RANGE
    requires inRange ==> WriteEffect(before, start, p[..done], true, FlashState(flash.cells, flash.faults))
    requires 0 < n
    modifies flash
    ensures |flash.cells| == |before.cells| && flash.faults >= before.faults
    ensures inRange ==> WriteEffect(before, start, p[..done + n], ok, FlashState(flash.cells, flash.faults))
  {
    hide WriteEffect;
    ghost var now := FlashState(flash.cells, flash.faults);
    var piece := p[done..done + n];
    ok := WritePiece(flash, U32(start + done), piece);
    ghost var next := FlashState(flash.cells, flash.faults);
    WriteKeepsSize(now, U32(start + done), piece, ok, next);
    if inRange {
      assert p[..done] + piece == p[..done + n];
      WriteJoins(before, start, p[..done], now, piece, ok, next);
    }
  }

  // ---------- dfu_update ----------

  function PayloadLen(cfg: Config, image: seq<byte>): nat
    requires cfg.authSize + CTRL_HEADER_SIZE <= |image|
  {
    Le32(image, cfg.authSize + 8)
  }

  /** check_dfu_update_image_length */
  predicate LengthAccepted(cfg: Config, imageId: nat, offset: nat, length: nat, data: seq<byte>)
    requires cfg.authSize + CTRL_HEADER_SIZE <= |data|
  {
    && (offset == 0 ==> U32(PayloadLen(cfg, data) + cfg.headerSize) <= cfg.BankOf(imageId).size)
    && U32(offset + length) <= cfg.BankOf(imageId).size
  }

  /** The answer of the checks that come before any flash access; Updated when they all pass. */
  function Precheck(cfg: Config, imageId: nat, offset: nat, length: nat, data: seq<byte>): UpdateResult
    requires cfg.authSize + CTRL_HEADER_SIZE <= |data|
  {
    if length % 4 != 0 then BadLength
    else if cfg.BankOf(imageId).addr == 0 then NoBank
    else if !LengthAccepted(cfg, imageId, offset, length, data) then TooLarge
    else Updated
  }

  /** A first packet that carries the control header is marked not ready, in RAM, before it is stored. */
  function MarkNotReady(cfg: Config, data: seq<byte>, offset: nat, length: nat): (r: seq<byte>)
    requires cfg.authSize + CTRL_HEADER_SIZE <= |data| && cfg.flagByte < CTRL_HEADER_SIZE
    ensures |r| == |data|
  {
    if offset == 0 && length > cfg.uuidOffset then
      var at := cfg.authSize + cfg.flagByte;
      data[at := Or(data[at], cfg.notReady)]
    else data
  }

  function StartAddr(cfg: Config, imageId: nat, offset: nat, totalOffset: nat): nat {
    U32(U32(cfg.BankOf(imageId).addr + offset) + totalOffset)
  }

  /** Writing may continue at a: a is a sector start, or the rest of its sector is erased. */
  ghost predicate ReadyAt(cells: seq<byte>, a: nat) {
    a % SECTOR == 0 || (SectorEnd(a) <= |cells| && Blank(cells, a, SectorEnd(a)))
  }

  /** The end of what an update of this length may erase or program. */
  function FootprintEnd(start: nat, length: nat): nat {
    if start % SECTOR == 0 && length == 0 then start + SECTOR else SectorEnd(start + length)
  }

  /** What an accepted update does to the flash. */
  ghost predicate StoreEffect(before: FlashState, start: nat, length: nat, data: seq<byte>, result: UpdateResult, after: FlashState)
    requires length <= |data|
  {
    && SameOutside(before.cells, after.cells, start, FootprintEnd(start, length))
    && before.faults <= after.faults
    && (result == Updated && 0 < length < 0x100_0000 ==>
          start + length <= |after.cells| && after.cells[start..start + length] == data[..length])
    && ((&& before.faults == after.faults
         && ReadyAt(before.cells, start)
         && length <= SECTOR
         && FootprintEnd(start, length) <= |before.cells|)
        ==> result == Updated && ReadyAt(after.cells, start + length))
  }

  ghost predicate UpdateEffect(cfg: Config, before: FlashState, imageId: nat, offset: nat, totalOffset: nat, length: nat,
                               data: seq<byte>, result: UpdateResult, after: FlashState, data': seq<byte>)
    requires cfg.authSize + CTRL_HEADER_SIZE <= |data| && cfg.flagByte < CTRL_HEADER_SIZE && length <= |data|
  {
    var verdict := Precheck(cfg, imageId, offset, length, data);
    var start := StartAddr(cfg, imageId, offset, totalOffset);
    if verdict != Updated then
      result == verdict && after == before && data' == data
    else
      && (result == Updated || result == EraseFailed || result == WriteFailed)
      && data' == MarkNotReady(cfg, data, offset, length)
      && |after.cells| == |before.cells| && before.faults <= after.faults
      && (start + length + SECTOR <= U32_RANGE ==> StoreEffect(before, start, length, data', result, after))
  }

  /** What erasing before a write of this length achieves. */
  ghost predicate EraseEffect(before: FlashState, start: nat, length: nat, ok: bool, after: FlashState) {
    && SameOutside(before.cells, after.cells, start, FootprintEnd(start, length))
    && before.faults <= after.faults
    && ((&& before.faults == after.faults
         && ReadyAt(before.cells, start)
         && length <= SECTOR
         && FootprintEnd(start, length) <= |before.cells|)
        ==> ok && Blank(after.cells, start, FootprintEnd(start, length)))
  }

  lemma AlignedFootprint(start: nat, length: nat)
    requires start % SECTOR == 0
    ensures start + SECTOR <= FootprintEnd(start, length)
    ensures length <= SECTOR ==> FootprintEnd(start, length) == start + SECTOR
  {
  }

  lemma OneSectorFootprint(start: nat, length: nat)
    requires start % SECTOR != 0
    requires start / SECTOR == (start + length) / SECTOR || (start + length) % SECTOR == 0
    ensures length <= SECTOR ==> FootprintEnd(start, length) == SectorEnd(start)
  {
  }

  lemma TwoSectorFootprint(start: nat, length: nat)
    requires start % SECTOR != 0
    requires start / SECTOR != (start + length) / SECTOR && (start + length) % SECTOR != 0
    ensures start < SectorStart(start + length)
    ensures SectorStart(start + length) + SECTOR == FootprintEnd(start, length)
    ensures length <= SECTOR ==> SectorStart(start + length) == SectorEnd(start)
  {
  }

  /** A sector is erased when writing enters it. */
  method EraseForUpdate(flash: NorFlash, start: nat, length: nat) returns (ok: bool)
    modifies flash
    ensures |flash.cells| == |old(flash.cells)| && flash.faults >= old(flash.faults)
    ensures start + length + SECTOR <= U32_RANGE ==>
              EraseEffect(FlashState(old(flash.cells), old(flash.faults)), start, length, ok,
                          FlashState(flash.cells, flash.faults))
  {
    hide FootprintEnd, SectorStart, SectorEnd;
    ok := true;
    if start % SECTOR == 0 {
      AlignedFootprint(start, length);
      ok := flash.Erase(start);
    } else if start / SECTOR != U32(start + length) / SECTOR && U32(start + length) % SECTOR != 0 {
      if start + length < U32_RANGE {
        TwoSectorFootprint(start, length);
      }
      ok := flash.Erase(SectorStart(U32(start + length)));
    } else if start + length < U32_RANGE {
      OneSectorFootprint(start, length);
    }
  }

  lemma FootprintBounds(start: nat, length: nat)
    ensures start + length <= FootprintEnd(start, length) <= start + length + SECTOR
    ensures start + length == FootprintEnd(start, length) || SectorEnd(start + length) <= FootprintEnd(start, length)
    ensures (start + length) % SECTOR != 0 ==> SectorEnd(start + length) == FootprintEnd(start, length)
  {
  }

  /** Erasing and then writing achieves what the update promises. */
  lemma EraseThenWrite(s0: FlashState, start: nat, length: nat, data: seq<byte>, erased: bool, s1: FlashState, ok: bool, s2: FlashState)
    requires length <= |data| && start + length + SECTOR <= U32_RANGE
    requires EraseEffect(s0, start, length, erased, s1)
    requires if erased then WriteEffect(s1, start, data[..WriteSpan(length)], ok, s2) else s2 == s1
    ensures StoreEffect(s0, start, length, data, if !erased then EraseFailed else if ok then Updated else WriteFailed, s2)
  {
    hide FootprintEnd, SectorStart, SectorEnd, WriteSpan;
    WriteSpanExact(length);
    FootprintBounds(start, length);
  }

  /** dfu_update */
  method DfuUpdate(cfg: Config, flash: NorFlash, imageId: nat, offset: nat, totalOffset: nat, length: nat, p: array?<byte>)
    returns (result: UpdateResult)
    requires cfg.Valid(|flash.cells|)
    requires p != null ==> length <= p.Length && cfg.authSize + CTRL_HEADER_SIZE <= p.Length
    modifies flash, p
    ensures p == null ==> flash.cells == old(flash.cells) && flash.faults == old(flash.faults) &&
                          result == if length % 4 != 0 then BadLength else NoBuffer
    ensures p != null ==>
              UpdateEffect(cfg, FlashState(old(flash.cells), old(flash.faults)), imageId, offset, totalOffset, length,
                           old(p[..]), result, FlashState(flash.cells, flash.faults), p[..])
  {
    hide StoreEffect, EraseEffect, WriteEffect, WriteSpan, LengthAccepted, Or;
    if length % 4 != 0 {
      return BadLength;
    }
    if p == null {
      return NoBuffer;
    }
    var base := cfg.BankOf(imageId).addr;
    if base == 0 {
      return NoBank;
    }
    if !LengthAccepted(cfg, imageId, offset, length, p[..]) {
      return TooLarge;
    }
    if offset == 0 && length > cfg.uuidOffset {
      var at := cfg.authSize + cfg.flagByte;
      p[at] := Or(p[at], cfg.notReady);
    }
    assert p[..] == MarkNotReady(cfg, old(p[..]), offset, length);
    var start := U32(U32(base + offset) + totalOffset);
    ghost var s0 := FlashState(flash.cells, flash.faults);
    var erased := EraseForUpdate(flash, start, length);
    ghost var s1 := FlashState(flash.cells, flash.faults);
    if !erased {
      if start + length + SECTOR <= U32_RANGE {
        EraseThenWrite(s0, start, length, p[..], false, s1, false, s1);
      }
      return EraseFailed;
    }
    var ok := DfuWrite(flash, start, length, p);
    ghost var s2 := FlashState(flash.cells, flash.faults);
    if start + length + SECTOR <= U32_RANGE {
      WriteSpanExact(length);
      assert p[..][..WriteSpan(length)] == p[..WriteSpan(length)];
      EraseThenWrite(s0, start, length, p[..], true, s1, ok, s2);
    }
    result := if ok then Updated else WriteFailed;
  }

  /** A stored first packet that carries the control header is not ready, whatever the packet said; only making
      it ready changes that. */
  lemma StoredNotReady(cfg: Config, before: FlashState, imageId: nat, totalOffset: nat, length: nat, data: seq<byte>,
                       after: FlashState, data': seq<byte>)
    requires cfg.Valid(|before.cells|) && cfg.authSize + CTRL_HEADER_SIZE <= |data| && length <= |data|
    requires UpdateEffect(cfg, before, imageId, 0, totalOffset, length, data, Updated, after, data')
    requires cfg.uuidOffset < length < 0x100_0000
    requires StartAddr(cfg, imageId, 0, totalOffset) + length + SECTOR <= U32_RANGE
    ensures var flag := StartAddr(cfg, imageId, 0, totalOffset) + cfg.authSize + cfg.flagByte;
            flag < |after.cells| && And(after.cells[flag], cfg.notReady) == cfg.notReady
  {
    hide Or, And, FootprintEnd, ReadyAt, Precheck, StartAddr;
    var start, at := StartAddr(cfg, imageId, 0, totalOffset), cfg.authSize + cfg.flagByte;
    AndBits(data[at], cfg.notReady);
    assert after.cells[start + at] == after.cells[start..start + length][at] == data'[..length][at];
  }

  // ---------- what an update means for the data ----------

  /** Data as it is stored: byte for byte, but for the one bit that marks the image not ready. */
  ghost predicate StoredAs(cfg: Config, data: seq<byte>, marked: bool, stored: seq<byte>) {
    var flag := cfg.authSize + cfg.flagByte;
    && |stored| == |data|
    && (forall k :: 0 <= k < |data| && !(marked && k == flag) ==> stored[k] == data[k])
    && (marked && flag < |data| ==> BitsSet(data[flag], stored[flag], cfg.notReady))
  }

  lemma MarkedAs(cfg: Config, data: seq<byte>, offset: nat, length: nat)
    requires cfg.authSize + CTRL_HEADER_SIZE <= |data| && cfg.flagByte < CTRL_HEADER_SIZE
    ensures StoredAs(cfg, data, offset == 0 && length > cfg.uuidOffset, MarkNotReady(cfg, data, offset, length))
  {
    hide Or, BitsSet;
    OrSets(data[cfg.authSize + cfg.flagByte], cfg.notReady);
  }

  /** A successful update has stored exactly the data it was given, the mark of a first packet that carries the
      image header apart. */
  lemma StoredExactly(cfg: Config, before: FlashState, imageId: nat, offset: nat, totalOffset: nat, length: nat, data: seq<byte>,
                      after: FlashState, data': seq<byte>)
    requires cfg.Valid(|before.cells|) && cfg.authSize + CTRL_HEADER_SIZE <= |data| && length <= |data|
    requires UpdateEffect(cfg, before, imageId, offset, totalOffset, length, data, Updated, after, data')
    requires 0 < length < 0x100_0000 && StartAddr(cfg, imageId, offset, totalOffset) + length + SECTOR <= U32_RANGE
    ensures var start := StartAddr(cfg, imageId, offset, totalOffset);
            && start + length <= |after.cells|
            && StoredAs(cfg, data[..length], offset == 0 && length > cfg.uuidOffset, after.cells[start..start + length])
  {
    hide BitsSet, MarkNotReady, FootprintEnd, ReadyAt, Precheck, StartAddr;
    MarkedAs(cfg, data, offset, length);
  }

  /** The header at this place announces n bytes behind it. */
  predicate Announces(cfg: Config, s: seq<byte>, header: nat, n: nat) {
    n < U32_RANGE && header + cfg.authSize + CTRL_HEADER_SIZE <= |s| &&
    s[header + cfg.authSize + 8..header + cfg.authSize + CTRL_HEADER_SIZE] == Bytes32(n)
  }

  lemma AnnouncedLength(cfg: Config, s: seq<byte>, header: nat, n: nat)
    requires Announces(cfg, s, header, n)
    ensures Le32(s, header + cfg.authSize + 8) == n
  {
    hide Le32, Bytes32;
    Le32Exactly(s, header + cfg.authSize + 8, n);
  }

  /** An update that begins an image with a header announcing more than the bank holds changes nothing. */
  lemma OversizedIsRefused(cfg: Config, before: FlashState, imageId: nat, totalOffset: nat, length: nat, data: seq<byte>,
                           result: UpdateResult, after: FlashState, data': seq<byte>, n: nat)
    requires cfg.authSize + CTRL_HEADER_SIZE <= |data| && cfg.flagByte < CTRL_HEADER_SIZE && length <= |data|
    requires UpdateEffect(cfg, before, imageId, 0, totalOffset, length, data, result, after, data')
    requires Announces(cfg, data, 0, n) && U32(n + cfg.headerSize) > cfg.BankOf(imageId).size
    ensures result != Updated && after == before && data' == data
  {
    hide StoreEffect, MarkNotReady, Le32;
    AnnouncedLength(cfg, data, 0, n);
  }

  /** So the header that a successful first update has put into the flash announces no more than the bank holds. */
  lemma StoredHeaderFits(cfg: Config, before: FlashState, imageId: nat, totalOffset: nat, length: nat, data: seq<byte>,
                         after: FlashState, data': seq<byte>, n: nat)
    requires cfg.Valid(|before.cells|) && cfg.authSize + CTRL_HEADER_SIZE <= |data| && length <= |data|
    requires UpdateEffect(cfg, before, imageId, 0, totalOffset, length, data, Updated, after, data')
    requires cfg.authSize + CTRL_HEADER_SIZE <= length < 0x100_0000
    requires StartAddr(cfg, imageId, 0, totalOffset) + length + SECTOR <= U32_RANGE
    requires Announces(cfg, after.cells, StartAddr(cfg, imageId, 0, totalOffset), n)
    ensures U32(n + cfg.headerSize) <= cfg.BankOf(imageId).size
  {
    hide StoreEffect, UpdateEffect, MarkNotReady, Le32, StartAddr, BitsSet, Bytes32;
    var start := StartAddr(cfg, imageId, 0, totalOffset);
    StoredExactly(cfg, before, imageId, 0, totalOffset, length, data, after, data');
    SameAnnouncement(cfg, data[..length], length > cfg.uuidOffset, after.cells[start..start + length], n);
    SliceAnnounces(cfg, after.cells, start, length, n);
    SliceAnnounces(cfg, data, 0, length, n);
    if U32(n + cfg.headerSize) > cfg.BankOf(imageId).size {
      OversizedIsRefused(cfg, before, imageId, totalOffset, length, data, Updated, after, data', n);
    }
  }

  lemma SliceAnnounces(cfg: Config, s: seq<byte>, from: nat, length: nat, n: nat)
    requires cfg.authSize + CTRL_HEADER_SIZE <= length && from + length <= |s|
    ensures Announces(cfg, s, from, n) <==> Announces(cfg, s[from..from + length], 0, n)
  {
    hide Bytes32;
    if n < U32_RANGE {
      var lo, hi := cfg.authSize + 8, cfg.authSize + CTRL_HEADER_SIZE;
      SliceOfSlice(s, from, from + length, lo, hi);
    }
  }

  /** Marking an image does not touch the length it announces. */
  lemma SameAnnouncement(cfg: Config, data: seq<byte>, marked: bool, stored: seq<byte>, n: nat)
    requires cfg.flagByte < 8 && StoredAs(cfg, data, marked, stored) && cfg.authSize + CTRL_HEADER_SIZE <= |data|
    ensures Announces(cfg, data, 0, n) <==> Announces(cfg, stored, 0, n)
  {
    hide Bytes32, BitsSet;
    var lo, hi := cfg.authSize + 8, cfg.authSize + CTRL_HEADER_SIZE;
    assert stored[lo..hi] == data[lo..hi];
  }

  /** The refusals, each for its reason; they leave flash and buffer alone. */
  lemma RefusedExactly(cfg: Config, before: FlashState, imageId: nat, offset: nat, totalOffset: nat, length: nat, data: seq<byte>,
                       result: UpdateResult, after: FlashState, data': seq<byte>, n: nat)
    requires cfg.authSize + CTRL_HEADER_SIZE <= |data| && cfg.flagByte < CTRL_HEADER_SIZE && length <= |data|
    requires UpdateEffect(cfg, before, imageId, offset, totalOffset, length, data, result, after, data')
    requires Announces(cfg, data, 0, n)
    ensures result == BadLength <==> length % 4 != 0
    ensures result == NoBank <==> length % 4 == 0 && cfg.BankOf(imageId).addr == 0
    ensures result == TooLarge <==>
              && length % 4 == 0 && cfg.BankOf(imageId).addr != 0
              && (U32(offset + length) > cfg.BankOf(imageId).size || (offset == 0 && U32(n + cfg.headerSize) > cfg.BankOf(imageId).size))
    ensures result == BadLength || result == NoBank || result == TooLarge ==> after == before && data' == data
    ensures result == Updated || result == EraseFailed || result == WriteFailed || result == BadLength || result == NoBank || result == TooLarge
  {
    hide StoreEffect, MarkNotReady, Le32;
    AnnouncedLength(cfg, data, 0, n);
  }

  // ---------- contiguous updates ----------

  /** One call of dfu_update: its arguments, its answer, what it left in the flash and in the buffer. */
  datatype Call = Call(imageId: nat, offset: nat, totalOffset: nat, length: nat, data: seq<byte>,
                       result: UpdateResult, after: FlashState, stored: seq<byte>)

  function Last<T>(s: seq<T>): T
    requires s != []
  {
    s[|s| - 1]
  }

  function Front<T>(s: seq<T>): seq<T>
    requires s != []
  {
    s[..|s| - 1]
  }

  function After(s0: FlashState, calls: seq<Call>): FlashState {
    if calls == [] then s0 else Last(calls).after
  }

  /** The data of the calls one after the other, as stored (the first header marked not ready). */
  function StoredData(calls: seq<Call>): seq<byte> {
    if calls == [] then [] else StoredData(Front(calls)) + StoredBy(Last(calls))
  }

  function StoredBy(c: Call): seq<byte> {
    if c.length <= |c.stored| then c.stored[..c.length] else c.stored
  }

  predicate AllUpdated(calls: seq<Call>) {
    calls == [] || (AllUpdated(Front(calls)) && Last(calls).result == Updated)
  }

  /** Calls that pass the checks, each starting where the one before it ended: within one image or, by
      way of the total offset, behind an earlier image. */
  ghost predicate ContiguousRun(cfg: Config, start: nat, s0: FlashState, calls: seq<Call>)
    requires cfg.flagByte < CTRL_HEADER_SIZE
  {
    calls == [] ||
    (&& ContiguousRun(cfg, start, s0, Front(calls))
     && ContiguousCall(cfg, start + |StoredData(Front(calls))|, After(s0, Front(calls)), Last(calls)))
  }

  ghost predicate ContiguousCall(cfg: Config, position: nat, before: FlashState, c: Call)
    requires cfg.flagByte < CTRL_HEADER_SIZE
  {
    && cfg.authSize + CTRL_HEADER_SIZE <= |c.data| == |c.stored|
    && 0 < c.length <= SECTOR
    && c.length <= |c.data|
    && Precheck(cfg, c.imageId, c.offset, c.length, c.data) == Updated
    && StartAddr(cfg, c.imageId, c.offset, c.totalOffset) == position
    && UpdateEffect(cfg, before, c.imageId, c.offset, c.totalOffset, c.length, c.data, c.result, c.after, c.stored)
  }

  /** What a run of contiguous updates from start has done after storing this data: if every update reported
      success the flash holds the data, nothing else but its sectors has changed, and every update does
      report success unless the flash is faulty, wherever the run began as long as the rest of that sector
      was erased; the run may then continue. */
  ghost predicate RunEffect(start: nat, data: seq<byte>, before: FlashState, after: FlashState, allUpdated: bool) {
    var end := start + |data|;
    && before.faults <= after.faults
    && SameOutside(before.cells, after.cells, start, FootprintEnd(start, |data|))
    && (allUpdated && data != [] ==> end <= |after.cells| && after.cells[start..end] == data)
    && ((&& ReadyAt(before.cells, start)
         && FootprintEnd(start, |data|) <= |before.cells|
         && before.faults == after.faults)
        ==> allUpdated && ReadyAt(after.cells, end))
  }

  /** Lazy erasure is sound: any number of contiguous updates, of one image or of images packed back to back,
      store their concatenation. */
  lemma {:induction false} ContiguousUpdates(cfg: Config, start: nat, s0: FlashState, calls: seq<Call>)
    requires cfg.flagByte < CTRL_HEADER_SIZE
    requires ContiguousRun(cfg, start, s0, calls)
    requires start + |StoredData(calls)| + SECTOR <= U32_RANGE
    ensures RunEffect(start, StoredData(calls), s0, After(s0, calls), AllUpdated(calls))
  {
    hide StoreEffect, ContiguousCall, RunEffect, StoredBy;
    if calls == [] {
      EmptyRun(s0, start);
    } else {
      var before, c := Front(calls), Last(calls);
      ContiguousUpdates(cfg, start, s0, before);
      CallStores(cfg, start + |StoredData(before)|, After(s0, before), c);
      AppendStored(start, StoredData(before), s0, After(s0, before), AllUpdated(before), StoredBy(c), c.result, c.after);
    }
  }

  lemma EmptyRun(s: FlashState, start: nat)
    ensures RunEffect(start, [], s, s, true)
  {
  }

  lemma CallStores(cfg: Config, position: nat, before: FlashState, c: Call)
    requires cfg.flagByte < CTRL_HEADER_SIZE
    requires ContiguousCall(cfg, position, before, c)
    ensures 0 < |StoredBy(c)| <= SECTOR
    ensures position + |StoredBy(c)| + SECTOR <= U32_RANGE ==>
              StoreEffect(before, position, |StoredBy(c)|, StoredBy(c), c.result, c.after)
  {
    hide FootprintEnd, ReadyAt, Precheck, StartAddr;
  }

  lemma FootprintGrows(start: nat, done: nat, length: nat)
    requires length > 0
    ensures length <= SECTOR ==> FootprintEnd(start, done) <= FootprintEnd(start, done + length)
    ensures FootprintEnd(start + done, length) == FootprintEnd(start, done + length)
  {
  }

  /** What was stored before stays, and what is stored now joins it. */
  lemma DataJoins(start: nat, data: seq<byte>, c1: seq<byte>, more: seq<byte>, c2: seq<byte>, hi: nat)
    requires more != [] && SameOutside(c1, c2, start + |data|, hi)
    requires data != [] ==> start + |data| <= |c1| && c1[start..start + |data|] == data
    requires start + |data| + |more| <= |c2| && c2[start + |data|..start + |data| + |more|] == more
    ensures c2[start..start + |data + more|] == data + more
  {
    var end := start + |data|;
    if data != [] {
      KeptSlice(c1, c2, end, hi, start, end);
    }
    JoinSlices(c2, start, end, end + |more|);
  }

  lemma AppendStored(start: nat, data: seq<byte>, s0: FlashState, s1: FlashState, allUpdated: bool,
                     more: seq<byte>, result: UpdateResult, s2: FlashState)
    requires 0 < |more| <= SECTOR
    requires RunEffect(start, data, s0, s1, allUpdated)
    requires StoreEffect(s1, start + |data|, |more|, more, result, s2)
    ensures RunEffect(start, data + more, s0, s2, allUpdated && result == Updated)
  {
    FootprintGrows(start, |data|, |more|);
    hide FootprintEnd, ReadyAt;
    assert |data + more| == |data| + |more| && more[..|more|] == more;
    if allUpdated && result == Updated {
      DataJoins(start, data, s1.cells, more, s2.cells, FootprintEnd(start + |data|, |more|));
    }
  }

  // ---------- confinement ----------

  /** An accepted update with no total offset stays inside the temporary bank exactly when its end, as the
      caller asked for it, fits in 32 bits; the check itself compares the wrapped sum. An empty update is
      confined unless it is made at the very end of the bank, where it erases the sector behind it. */
  lemma ConfinedExactly(cfg: Config, flashSize: nat, imageId: nat, offset: nat, length: nat, data: seq<byte>)
    requires cfg.Valid(flashSize) && cfg.authSize + CTRL_HEADER_SIZE <= |data|
    requires offset < U32_RANGE && length < U32_RANGE
    requires Precheck(cfg, imageId, offset, length, data) == Updated
    ensures var bank := cfg.BankOf(imageId);
            var start := StartAddr(cfg, imageId, offset, 0);
            (bank.addr <= start && FootprintEnd(start, length) <= bank.addr + bank.size) <==>
            (if length > 0 then offset + length < U32_RANGE else offset != bank.size)
  {
    hide FootprintEnd, StartAddr;
    var bank := cfg.BankOf(imageId);
    assert BankFits(bank, flashSize);
    if offset + length < U32_RANGE {
      UnwrappedPlace(cfg, flashSize, imageId, offset, length);
    } else {
      WrappedPlace(cfg, flashSize, imageId, offset, length);
    }
  }

  lemma UnwrappedPlace(cfg: Config, flashSize: nat, imageId: nat, offset: nat, length: nat)
    requires cfg.Valid(flashSize) && offset + length <= cfg.BankOf(imageId).size
    ensures var bank := cfg.BankOf(imageId);
            var start := StartAddr(cfg, imageId, offset, 0);
            && start == bank.addr + offset
            && (FootprintEnd(start, length) <= bank.addr + bank.size <==> 0 < length || offset != bank.size)
  {
    hide SectorEnd, SectorStart, FootprintEnd;
    var bank := cfg.BankOf(imageId);
    assert BankFits(bank, flashSize);
    if 0 < length {
      NonEmptyFootprint(bank.addr + offset, length);
      SectorEndMonotone(bank.addr + offset + length, bank.addr + bank.size);
    } else {
      EmptyFootprint(bank.addr + offset, bank.addr + bank.size);
    }
  }

  lemma NonEmptyFootprint(start: nat, length: nat)
    requires 0 < length
    ensures FootprintEnd(start, length) == SectorEnd(start + length)
  {
  }

  lemma EmptyFootprint(start: nat, end: nat)
    requires start <= end && end % SECTOR == 0
    ensures FootprintEnd(start, 0) <= end <==> start != end
  {
    if start % SECTOR != 0 {
      SectorEndMonotone(start, end);
    }
  }

  /** The start lies below the bank, or the end, as far as the flash is concerned, behind it. */
  lemma WrappedPlace(cfg: Config, flashSize: nat, imageId: nat, offset: nat, length: nat)
    requires cfg.Valid(flashSize) && offset < U32_RANGE && length < U32_RANGE && U32_RANGE <= offset + length
    ensures var bank := cfg.BankOf(imageId);
            var start := StartAddr(cfg, imageId, offset, 0);
            start < bank.addr || bank.addr + bank.size < FootprintEnd(start, length)
  {
    assert BankFits(cfg.BankOf(imageId), flashSize);
    FootprintBounds(StartAddr(cfg, imageId, offset, 0), length);
  }

  /** Such an update exists for every bank: eight bytes at offset 2^32 - 4 pass all checks, and start four bytes
      below it. */
  lemma WrappedUpdateIsAccepted(cfg: Config, flashSize: nat, imageId: nat, data: seq<byte>)
    requires cfg.Valid(flashSize) && cfg.authSize + CTRL_HEADER_SIZE <= |data|
    requires 0 < cfg.BankOf(imageId).addr && 4 <= cfg.BankOf(imageId).size
    ensures Precheck(cfg, imageId, U32_RANGE - 4, 8, data) == Updated
    ensures StartAddr(cfg, imageId, U32_RANGE - 4, 0) == cfg.BankOf(imageId).addr - 4
  {
    assert BankFits(cfg.BankOf(imageId), flashSize);
  }

  lemma SectorEndMonotone(a: nat, b: nat)
    requires a <= b && b % SECTOR == 0
    ensures SectorEnd(a) <= b
  {
  }

  /** What a caller gets from it: a non-empty update whose end fits in 32 bits touches its bank only, and an
      update the checks refuse touches nothing. */
  lemma Confinement(cfg: Config, before: FlashState, imageId: nat, offset: nat, length: nat, data: seq<byte>,
                    result: UpdateResult, after: FlashState, data': seq<byte>)
    requires cfg.Valid(|before.cells|) && cfg.authSize + CTRL_HEADER_SIZE <= |data| && length <= |data|
    requires UpdateEffect(cfg, before, imageId, offset, 0, length, data, result, after, data')
    requires 0 < length && offset + length < U32_RANGE
    ensures var bank := cfg.BankOf(imageId);
            SameOutside(before.cells, after.cells, bank.addr, bank.addr + bank.size)
    ensures result == BadLength || result == NoBank || result == TooLarge ==> after == before
  {
    hide FootprintEnd, ReadyAt;
    if Precheck(cfg, imageId, offset, length, data) == Updated {
      ConfinedExactly(cfg, |before.cells|, imageId, offset, length, data);
      assert BankFits(cfg.BankOf(imageId), |before.cells|);
    }
  }

  // ---------- sector recovery ----------

  lemma BlankWord(cells: seq<byte>, a: nat)
    requires a + 4 <= |cells|
    ensures cells[a..a + 4] == [0xFF, 0xFF, 0xFF, 0xFF] <==> Blank(cells, a, a + 4)
  {
    var word := cells[a..a + 4];
    assert forall k :: a <= k < a + 4 ==> cells[k] == word[k - a];
  }

  /** dfu_flash_check_blank over one sector, a word at a time. */
  method CheckBlank(cfg: Config, flash: NorFlash, imageId: nat, offset: nat) returns (blank: bool)
    modifies flash
    ensures flash.cells == old(flash.cells) && flash.faults >= old(flash.faults)
    ensures var a := U32(cfg.BankOf(imageId).addr + offset);
            && (blank ==> cfg.KnownImage(imageId) && a + SECTOR <= |flash.cells| && Blank(flash.cells, a, a + SECTOR))
            && ((&& cfg.KnownImage(imageId)
                 && a != 0
                 && a + SECTOR <= |flash.cells|
                 && flash.faults == old(flash.faults)
                 && Blank(flash.cells, a, a + SECTOR))
                ==> blank)
  {
    if !cfg.KnownImage(imageId) {
      return false;
    }
    var a := U32(cfg.BankOf(imageId).addr + offset);
    if a == 0 {
      return false;
    }
    var i := 0;
    while i < SECTOR / 4
      invariant 0 <= i <= SECTOR / 4
      invariant flash.cells == old(flash.cells) && flash.faults >= old(flash.faults)
      invariant i > 0 ==> a + 4 * i <= |flash.cells|
      invariant i > 0 ==> Blank(flash.cells, a, a + 4 * i)
    {
      var ok, word := flash.Read(a + 4 * i, 4);
      if !ok {
        return false;
      }
      if word != [0xFF, 0xFF, 0xFF, 0xFF] {
        BlankWord(flash.cells, a + 4 * i);
        return false;
      }
      BlankWord(flash.cells, a + 4 * i);
      i := i + 1;
    }
    return true;
  }

  ghost predicate RetryEffect(cfg: Config, before: FlashState, imageId: nat, offset: nat, ok: bool, after: FlashState) {
    var bank := cfg.BankOf(imageId);
    var a := U32(bank.addr + offset);
    if bank.addr == 0 then
      !ok && after == before
    else
      && SameOutside(before.cells, after.cells, a, a + SECTOR)
      && before.faults <= after.faults
      && (ok ==> a + SECTOR <= |after.cells| && Blank(after.cells, a, a + SECTOR))
      && ((&& after.faults < before.faults + 3
           && cfg.KnownImage(imageId)
           && a % SECTOR == 0
           && 0 < a
           && a + SECTOR <= |after.cells|)
          ==> ok)
  }

  /** dfu_flash_erase_sector_with_retry: the blank check decides, not what the erase says, and it is given up
      only after three faults. */
  method EraseSectorWithRetry(cfg: Config, flash: NorFlash, imageId: nat, offset: nat) returns (ok: bool)
    modifies flash
    ensures RetryEffect(cfg, FlashState(old(flash.cells), old(flash.faults)), imageId, offset, ok,
                        FlashState(flash.cells, flash.faults))
  {
    var base := cfg.BankOf(imageId).addr;
    if base == 0 {
      return false;
    }
    var a := U32(base + offset);
    ok := false;
    var cnt := 0;
    while !ok && cnt < 3
      invariant 0 <= cnt <= 3
      invariant SameOutside(old(flash.cells), flash.cells, a, a + SECTOR) && old(flash.faults) <= flash.faults
      invariant ok ==> a + SECTOR <= |flash.cells| && Blank(flash.cells, a, a + SECTOR)
      invariant cfg.KnownImage(imageId) && a % SECTOR == 0 && 0 < a && a + SECTOR <= |flash.cells| ==>
                  flash.faults >= old(flash.faults) + cnt
      decreases 3 - cnt, !ok
    {
      var _ := flash.Erase(a);
      ok := CheckBlank(cfg, flash, imageId, offset);
      if !ok {
        cnt := cnt + 1;
      }
    }
  }
}
