/** The checksum over a stored image and the not_ready bit (subsys/dfu/dfu_flash.c). */
module ImageHash {
  import opened Bytes
  import opened Nor
  import opened DfuFlash

  const SHA256_BUFFER_SIZE := 128
  const SHA256_LENGTH := 32

  /** What the hash sees: the bytes from the control header on, with not_ready cleared. */
  function Masked(cfg: Config, s: seq<byte>): (r: seq<byte>)
    ensures |r| == |s|
  {
    if cfg.flagByte < |s| then s[cfg.flagByte := Clear(s[cfg.flagByte], cfg.notReady)] else s
  }

  /** That clears just this bit of just this byte. */
  lemma MaskedClearsBit(cfg: Config, s: seq<byte>)
    ensures forall k :: 0 <= k < |s| && k != cfg.flagByte ==> Masked(cfg, s)[k] == s[k]
    ensures cfg.flagByte < |s| ==> BitsCleared(s[cfg.flagByte], Masked(cfg, s)[cfg.flagByte], cfg.notReady)
  {
    hide Clear, BitsCleared;
    if cfg.flagByte < |s| {
      ClearClears(s[cfg.flagByte], cfg.notReady);
    }
  }

  /** One chunk: read it into buf, clear not_ready if it is the first, and pass it on. A failed read is
      ignored and leaves something else in buf. */
  method FeedChunk(cfg: Config, flash: NorFlash, buf: array<byte>, addr: nat, n: nat, first: bool) returns (chunk: seq<byte>)
    requires cfg.flagByte < buf.Length && n <= buf.Length
    modifies flash, buf
    ensures flash.cells == old(flash.cells) && flash.faults >= old(flash.faults)
    ensures |chunk| == n
    ensures flash.faults == old(flash.faults) && addr + n <= |flash.cells| ==>
              chunk == if first then Masked(cfg, flash.cells[addr..addr + n]) else flash.cells[addr..addr + n]
  {
    hide Clear;
    var _, data := flash.Read(addr, n);
    forall k | 0 <= k < n {
      buf[k] := data[k];
    }
    assert buf[..n] == data;
    if first {
      buf[cfg.flagByte] := Clear(buf[cfg.flagByte], cfg.notReady);
      assert buf[..n] == Masked(cfg, data);
    }
    chunk := buf[..n];
  }

  /** dfu_process_image_sha256 of an uncompressed image; fed is what hw_sha256_cpu_update has received. */
  method ProcessImageSha256(cfg: Config, flash: NorFlash, buf: array<byte>, bufMaxSize: nat, start: nat, dataLen: nat)
    returns (fed: seq<byte>)
    requires cfg.flagByte < bufMaxSize <= buf.Length
    modifies flash, buf
    ensures flash.cells == old(flash.cells) && flash.faults >= old(flash.faults)
    ensures |fed| == dataLen
    ensures flash.faults == old(flash.faults) && start + dataLen <= |flash.cells| ==>
              fed == Masked(cfg, flash.cells[start..start + dataLen])
  {
    hide Masked, Left;
    LeftStart(dataLen, bufMaxSize);
    fed := FeedChunks(cfg, flash, buf, bufMaxSize, start, dataLen / bufMaxSize, dataLen % bufMaxSize);
  }

  /** So many whole chunks, and what remains. */
  method FeedChunks(cfg: Config, flash: NorFlash, buf: array<byte>, bufMaxSize: nat, start: nat, loopCnt: nat, remainSize: nat)
    returns (fed: seq<byte>)
    requires cfg.flagByte < bufMaxSize <= buf.Length && remainSize < bufMaxSize
    modifies flash, buf
    ensures flash.cells == old(flash.cells) && flash.faults >= old(flash.faults)
    ensures |fed| == Left(loopCnt, bufMaxSize, remainSize)
    ensures FedSoFar(cfg, flash, old(flash.faults), start, start + |fed|, |fed|, fed)
  {
    hide Clear, Masked, Left, FedSoFar;
    fed := [];
    var pdata, i := start, 0;
    ghost var dataLen := Left(loopCnt, bufMaxSize, remainSize);
    NothingFed(cfg, flash, start, dataLen);
    while i < loopCnt
      invariant 0 <= i <= loopCnt && pdata == start + |fed|
      invariant pdata + Left(loopCnt - i, bufMaxSize, remainSize) == start + dataLen
      invariant if i == 0 then fed == [] else cfg.flagByte < |fed|
      invariant flash.cells == old(flash.cells) && flash.faults >= old(flash.faults)
      invariant FedSoFar(cfg, flash, old(flash.faults), start, pdata, dataLen, fed)
    {
      OneChunkLess(loopCnt - i, bufMaxSize, remainSize);
      fed := FeedNext(cfg, flash, buf, start, bufMaxSize, i == 0, fed, dataLen, old(flash.faults));
      pdata := pdata + bufMaxSize;
      i := i + 1;
    }
    LeftEnd(bufMaxSize, remainSize);
    if remainSize != 0 {
      fed := FeedNext(cfg, flash, buf, start, remainSize, loopCnt == 0, fed, dataLen, old(flash.faults));
    }
  }

  /** One more chunk behind those already fed. */
  method FeedNext(cfg: Config, flash: NorFlash, buf: array<byte>, start: nat, n: nat, first: bool, fed: seq<byte>,
                  ghost dataLen: nat, ghost faults: nat)
    returns (fed': seq<byte>)
    requires cfg.flagByte < buf.Length && n <= buf.Length && if first then fed == [] else cfg.flagByte < |fed|
    requires |fed| + n <= dataLen && faults <= flash.faults
    requires FedSoFar(cfg, flash, faults, start, start + |fed|, dataLen, fed)
    modifies flash, buf
    ensures flash.cells == old(flash.cells) && flash.faults >= old(flash.faults)
    ensures |fed'| == |fed| + n && FedSoFar(cfg, flash, faults, start, start + |fed'|, dataLen, fed')
  {
    hide Clear, Masked;
    var chunk := FeedChunk(cfg, flash, buf, start + |fed|, n, first);
    ChunkJoins(cfg, flash.cells, start, start + |fed|, n);
    fed' := fed + chunk;
  }

  ghost predicate FedSoFar(cfg: Config, flash: NorFlash, faults: nat, start: nat, end: nat, dataLen: nat, fed: seq<byte>)
    reads flash
  {
    flash.faults == faults && start + dataLen <= |flash.cells| ==>
      start <= end <= |flash.cells| && fed == Masked(cfg, flash.cells[start..end])
  }

  function Left(chunks: nat, size: nat, rest: nat): nat { chunks * size + rest }

  lemma LeftStart(n: nat, size: nat)
    requires size > 0
    ensures Left(n / size, size, n % size) == n && n % size < size
  {
  }

  lemma LeftEnd(size: nat, rest: nat)
    ensures Left(0, size, rest) == rest
  {
  }

  lemma OneChunkLess(chunks: nat, size: nat, rest: nat)
    requires chunks > 0
    ensures Left(chunks, size, rest) == Left(chunks - 1, size, rest) + size
  {
  }

  lemma NothingFed(cfg: Config, flash: NorFlash, start: nat, dataLen: nat)
    ensures FedSoFar(cfg, flash, flash.faults, start, start, dataLen, [])
  {
  }

  lemma ChunkJoins(cfg: Config, cells: seq<byte>, start: nat, at: nat, n: nat)
    requires start == at || start + cfg.flagByte < at
    ensures start <= at && at + n <= |cells| ==>
              Masked(cfg, cells[start..at + n]) ==
              if start == at then Masked(cfg, cells[at..at + n]) else Masked(cfg, cells[start..at]) + cells[at..at + n]
  {
    if start <= at && at + n <= |cells| {
      MaskedJoins(cfg, cells[start..at], cells[at..at + n]);
      assert cells[start..at] + cells[at..at + n] == cells[start..at + n];
    }
  }

  /** Masking the first chunk masks the whole, provided the flag lies in it. */
  lemma MaskedJoins(cfg: Config, a: seq<byte>, b: seq<byte>)
    requires a == [] || cfg.flagByte < |a|
    ensures Masked(cfg, a + b) == if a == [] then Masked(cfg, b) else Masked(cfg, a) + b
  {
    if a == [] {
      assert a + b == b;
    }
  }

  /** How many bytes the checksum covers, from the control header on; the sum is a uint32_t. */
  function HashedLength(cfg: Config, cells: seq<byte>, header: nat): nat
    requires header + cfg.authSize + CTRL_HEADER_SIZE <= |cells| && cfg.authSize <= cfg.formatSize
  {
    U32(Le32(cells, header + cfg.authSize + 8) + (cfg.formatSize - cfg.authSize))
  }

  /** The header and everything the checksum covers lie inside the flash. */
  predicate HashInRange(cfg: Config, cells: seq<byte>, header: nat)
    requires cfg.authSize <= cfg.formatSize
  {
    && header + cfg.authSize + CTRL_HEADER_SIZE <= |cells|
    && header + cfg.authSize + HashedLength(cfg, cells, header) <= |cells|
  }

  /** The stored image hash is the hash of the stored image. */
  predicate ChecksumHolds(cfg: Config, cells: seq<byte>, header: nat)
    requires cfg.authSize <= cfg.formatSize && cfg.hashOffset + SHA256_LENGTH <= cfg.authSize
    requires HashInRange(cfg, cells, header)
  {
    var from := header + cfg.authSize;
    var hash := header + cfg.hashOffset;
    cfg.sha256(Masked(cfg, cells[from..from + HashedLength(cfg, cells, header)])) == cells[hash..hash + SHA256_LENGTH]
  }

  /** dfu_check_sha256. The reads are not checked, so the answer means something only if they worked. */
  method CheckSha256(cfg: Config, flash: NorFlash, header: nat) returns (ok: bool)
    requires cfg.Valid(|flash.cells|)
    modifies flash
    ensures flash.cells == old(flash.cells) && flash.faults >= old(flash.faults)
    ensures flash.faults == old(flash.faults) && HashInRange(cfg, flash.cells, header) ==>
              ok == ChecksumHolds(cfg, flash.cells, header)
  {
    hide Masked, Le32;
    var buf := new byte[SHA256_BUFFER_SIZE](_ => 0);
    var from := header + cfg.authSize;
    var _, word := flash.Read(from + 8, 4);
    if from + CTRL_HEADER_SIZE <= |flash.cells| {
      Le32OfSlice(flash.cells, from + 8);
    }
    var len := U32(Le32(word, 0) + (cfg.formatSize - cfg.authSize));
    var fed := ProcessImageSha256(cfg, flash, buf, SHA256_BUFFER_SIZE, from, len);
    var _, imageHash := flash.Read(header + cfg.hashOffset, SHA256_LENGTH);
    ok := imageHash == cfg.sha256(fed);
  }

  /** Clearing not_ready of the image at this address. */
  function MadeReady(cfg: Config, cells: seq<byte>, header: nat): (r: seq<byte>)
    ensures |r| == |cells|
  {
    var at := header + cfg.authSize + cfg.flagByte;
    if at < |cells| then cells[at := Clear(cells[at], cfg.notReady)] else cells
  }

  /** On NOR flash, writing the patched header over itself clears that bit and no other. */
  lemma ReadyWrite(cfg: Config, cells: seq<byte>, header: nat)
    requires cfg.flagByte < CTRL_HEADER_SIZE && header + cfg.authSize + CTRL_HEADER_SIZE <= |cells|
    ensures var from := header + cfg.authSize;
            Programmed(cells, from, Masked(cfg, cells[from..from + CTRL_HEADER_SIZE])) == MadeReady(cfg, cells, header)
  {
    hide And, Clear;
    var from := header + cfg.authSize;
    forall k | 0 <= k < |cells|
      ensures Programmed(cells, from, Masked(cfg, cells[from..from + CTRL_HEADER_SIZE]))[k] == MadeReady(cfg, cells, header)[k]
    {
      AndBits(cells[k], cfg.notReady);
    }
  }

  /** On sound flash only the bit is cleared; a fault may spoil the control header, and no more. */
  ghost predicate ReadyEffect(cfg: Config, before: FlashState, header: nat, after: FlashState) {
    var from := header + cfg.authSize;
    && before.faults <= after.faults
    && SameOutside(before.cells, after.cells, from, from + CTRL_HEADER_SIZE)
    && (before.faults == after.faults && from + CTRL_HEADER_SIZE <= |before.cells| ==>
          after.cells == MadeReady(cfg, before.cells, header))
  }

  /** One bit is cleared, and no other bit of the flash has changed. */
  ghost predicate OneBitCleared(before: seq<byte>, after: seq<byte>, at: nat, m: byte) {
    && at < |before| == |after|
    && BitsCleared(before[at], after[at], m)
    && forall k :: 0 <= k < |before| && k != at ==> after[k] == before[k]
  }

  /** dfu_set_ready; the read is not checked here either. */
  method SetReady(cfg: Config, flash: NorFlash, header: nat)
    requires cfg.Valid(|flash.cells|)
    modifies flash
    ensures ReadyEffect(cfg, FlashState(old(flash.cells), old(flash.faults)), header, FlashState(flash.cells, flash.faults))
    ensures flash.faults == old(flash.faults) && header + cfg.authSize + CTRL_HEADER_SIZE <= |old(flash.cells)| ==>
              OneBitCleared(old(flash.cells), flash.cells, header + cfg.authSize + cfg.flagByte, cfg.notReady)
  {
    hide OneBitCleared, Clear;
    var from := header + cfg.authSize;
    var _, imageHeader := flash.Read(from, CTRL_HEADER_SIZE);
    if from + CTRL_HEADER_SIZE <= |flash.cells| {
      ReadyWrite(cfg, flash.cells, header);
    }
    imageHeader := Masked(cfg, imageHeader);
    if from + CTRL_HEADER_SIZE <= |flash.cells| {
      MadeReadyClearsBit(cfg, flash.cells, header);
    }
    var _ := flash.Program(from, imageHeader);
  }

  lemma MadeReadyClearsBit(cfg: Config, cells: seq<byte>, header: nat)
    requires header + cfg.authSize + cfg.flagByte < |cells|
    ensures OneBitCleared(cells, MadeReady(cfg, cells, header), header + cfg.authSize + cfg.flagByte, cfg.notReady)
  {
    hide Clear, BitsCleared;
    ClearClears(cells[header + cfg.authSize + cfg.flagByte], cfg.notReady);
  }

  lemma SameLength(cfg: Config, a: seq<byte>, b: seq<byte>, header: nat)
    requires cfg.authSize <= cfg.formatSize && |a| == |b| && header + cfg.authSize + CTRL_HEADER_SIZE <= |a|
    requires forall k :: header + cfg.authSize + 8 <= k < header + cfg.authSize + CTRL_HEADER_SIZE ==> a[k] == b[k]
    ensures HashedLength(cfg, a, header) == HashedLength(cfg, b, header)
  {
    hide Val;
  }

  /** The verdict follows from what is hashed and the hash it is compared with. */
  lemma SameVerdict(cfg: Config, a: seq<byte>, b: seq<byte>, header: nat)
    requires cfg.Valid(|a|) && |a| == |b| && HashInRange(cfg, a, header) && HashInRange(cfg, b, header)
    requires HashedLength(cfg, a, header) == HashedLength(cfg, b, header)
    requires var from, len := header + cfg.authSize, HashedLength(cfg, a, header);
             Masked(cfg, a[from..from + len]) == Masked(cfg, b[from..from + len])
    requires forall k :: header + cfg.hashOffset <= k < header + cfg.hashOffset + SHA256_LENGTH ==> a[k] == b[k]
    ensures ChecksumHolds(cfg, b, header) == ChecksumHolds(cfg, a, header)
  {
    hide HashedLength, Masked;
    var hash := header + cfg.hashOffset;
    assert a[hash..hash + SHA256_LENGTH] == b[hash..hash + SHA256_LENGTH];
  }

  /** The checksum says the same about an image before and after it is made ready. */
  lemma VerdictIgnoresReadiness(cfg: Config, cells: seq<byte>, header: nat)
    requires cfg.Valid(|cells|) && header + cfg.authSize + CTRL_HEADER_SIZE <= |cells|
    ensures var made := MadeReady(cfg, cells, header);
            && HashInRange(cfg, made, header) == HashInRange(cfg, cells, header)
            && (HashInRange(cfg, cells, header) ==>
                  ChecksumHolds(cfg, made, header) == ChecksumHolds(cfg, cells, header))
  {
    hide Clear, HashedLength;
    var made := MadeReady(cfg, cells, header);
    SameLength(cfg, made, cells, header);
    if HashInRange(cfg, cells, header) {
      var from := header + cfg.authSize;
      var len := HashedLength(cfg, cells, header);
      AndBits(cells[from + cfg.flagByte], cfg.notReady);
      assert Masked(cfg, made[from..from + len]) == Masked(cfg, cells[from..from + len]);
      SameVerdict(cfg, cells, made, header);
    }
  }

  /** The verdict depends only on the bytes from the header to the end of what is hashed. */
  lemma VerdictIsLocal(cfg: Config, a: seq<byte>, b: seq<byte>, header: nat)
    requires cfg.Valid(|a|) && |a| == |b| && HashInRange(cfg, a, header)
    requires forall k :: header <= k < header + cfg.authSize + CTRL_HEADER_SIZE ==> a[k] == b[k]
    requires forall k :: header <= k < header + cfg.authSize + HashedLength(cfg, a, header) ==> a[k] == b[k]
    ensures HashInRange(cfg, b, header) && HashedLength(cfg, b, header) == HashedLength(cfg, a, header)
    ensures ChecksumHolds(cfg, b, header) == ChecksumHolds(cfg, a, header)
  {
    hide HashedLength, Masked;
    SameLength(cfg, a, b, header);
    var from, len := header + cfg.authSize, HashedLength(cfg, a, header);
    assert a[from..from + len] == b[from..from + len];
    SameVerdict(cfg, a, b, header);
  }

  // ---------- how far the checksum reaches ----------

  /** What is hashed for the image at this header; nothing if it does not lie in the flash. */
  function HashedBytes(cfg: Config, cells: seq<byte>, header: nat): seq<byte>
    requires cfg.authSize <= cfg.formatSize
  {
    if HashInRange(cfg, cells, header) then
      var from := header + cfg.authSize;
      Masked(cfg, cells[from..from + HashedLength(cfg, cells, header)])
    else []
  }

  /** The image at this header lies in the flash: the fixed part of its header, and the n bytes that announces. */
  predicate WholeInFlash(cfg: Config, cells: seq<byte>, header: nat, n: nat) {
    Announces(cfg, cells, header, n) && header + cfg.formatSize + n <= |cells|
  }

  lemma HashedToTheEnd(cfg: Config, cells: seq<byte>, header: nat, n: nat)
    requires cfg.Valid(|cells|) && WholeInFlash(cfg, cells, header, n)
    ensures HashInRange(cfg, cells, header)
    ensures cfg.authSize + HashedLength(cfg, cells, header) == cfg.formatSize + n
  {
    hide Le32;
    AnnouncedLength(cfg, cells, header, n);
  }

  /** Two flashes differ in a byte of the image, not counting the bit that says whether it is ready. */
  ghost predicate DiffersAt(cfg: Config, a: seq<byte>, b: seq<byte>, header: nat, k: nat)
    requires k < |a| == |b|
  {
    if k == header + cfg.authSize + cfg.flagByte then !SameBits(a[k], b[k], cfg.notReady) else a[k] != b[k]
  }

  lemma MaskedDiffers(cfg: Config, s: seq<byte>, t: seq<byte>, k: nat)
    requires k < |s| == |t|
    requires if k == cfg.flagByte then !SameBits(s[k], t[k], cfg.notReady) else s[k] != t[k]
    ensures Masked(cfg, s) != Masked(cfg, t)
  {
    hide Clear, SameBits;
    assert Masked(cfg, s)[k] != Masked(cfg, t)[k] by {
      SameBitsExactly(s[k], t[k], cfg.notReady);
    }
  }

  /** Every byte from the control header to the end of the payload counts, every bit of it but not_ready... */
  lemma EveryImageByteIsHashed(cfg: Config, a: seq<byte>, b: seq<byte>, header: nat, n: nat, k: nat)
    requires cfg.Valid(|a|) && |a| == |b| && WholeInFlash(cfg, a, header, n) && WholeInFlash(cfg, b, header, n)
    requires header + cfg.authSize <= k < header + cfg.formatSize + n && DiffersAt(cfg, a, b, header, k)
    ensures HashedBytes(cfg, a, header) != HashedBytes(cfg, b, header)
  {
    hide Masked, SameBits, HashedLength, Announces;
    HashedToTheEnd(cfg, a, header, n);
    HashedToTheEnd(cfg, b, header, n);
    var from, to := header + cfg.authSize, header + cfg.formatSize + n;
    MaskedDiffers(cfg, a[from..to], b[from..to], k - from);
  }

  /** ...and nothing behind it does. */
  lemma NothingBehindIsHashed(cfg: Config, a: seq<byte>, b: seq<byte>, header: nat, n: nat)
    requires cfg.Valid(|a|) && |a| == |b| && WholeInFlash(cfg, a, header, n)
    requires forall k :: header <= k < header + cfg.formatSize + n ==> a[k] == b[k]
    ensures HashedBytes(cfg, a, header) == HashedBytes(cfg, b, header)
    ensures HashInRange(cfg, a, header) && HashInRange(cfg, b, header)
    ensures ChecksumHolds(cfg, b, header) == ChecksumHolds(cfg, a, header)
  {
    hide HashedLength, Masked, ChecksumHolds, Announces;
    HashedToTheEnd(cfg, a, header, n);
    VerdictIsLocal(cfg, a, b, header);
    var from, to := header + cfg.authSize, header + cfg.formatSize + n;
    assert a[from..to] == b[from..to];
  }

  ghost predicate CollisionFree(sha256: seq<byte> -> seq<byte>) {
    forall x: seq<byte>, y: seq<byte> :: sha256(x) == sha256(y) ==> x == y
  }

  predicate SameStoredHash(cfg: Config, a: seq<byte>, b: seq<byte>, header: nat) {
    && |a| == |b| && header + cfg.hashOffset + SHA256_LENGTH <= |a|
    && a[header + cfg.hashOffset..header + cfg.hashOffset + SHA256_LENGTH] == b[header + cfg.hashOffset..header + cfg.hashOffset + SHA256_LENGTH]
  }

  /** A corrupted image does not pass: if one passes, none that differs from it anywhere up to its end does, under
      the same stored hash. */
  lemma CorruptionFailsTheCheck(cfg: Config, a: seq<byte>, b: seq<byte>, header: nat, n: nat, k: nat)
    requires cfg.Valid(|a|) && |a| == |b| && WholeInFlash(cfg, a, header, n) && WholeInFlash(cfg, b, header, n)
    requires header + cfg.authSize <= k < header + cfg.formatSize + n && DiffersAt(cfg, a, b, header, k)
    requires SameStoredHash(cfg, a, b, header) && CollisionFree(cfg.sha256)
    ensures HashInRange(cfg, a, header) && HashInRange(cfg, b, header)
    ensures ChecksumHolds(cfg, a, header) ==> !ChecksumHolds(cfg, b, header)
  {
    hide Masked, SameBits, HashedLength, Announces;
    HashedToTheEnd(cfg, a, header, n);
    HashedToTheEnd(cfg, b, header, n);
    EveryImageByteIsHashed(cfg, a, b, header, n, k);
  }

  /** What dfu_check_checksum says and does: with bank switching the image is made ready at once, otherwise on
      activation. */
  ghost predicate CheckEffect(cfg: Config, before: FlashState, imageId: nat, offset: nat, ok: bool, after: FlashState)
    requires cfg.Valid(|before.cells|)
  {
    var header := ImageAddr(cfg, imageId, offset);
    && before.faults <= after.faults
    && SameOutside(before.cells, after.cells, header + cfg.authSize, header + cfg.authSize + CTRL_HEADER_SIZE)
    && (cfg.BankOf(imageId).addr == 0 ==> !ok)
    && (!ok || !cfg.bankSwitch ==> after.cells == before.cells)
    && (before.faults == after.faults && cfg.BankOf(imageId).addr != 0 && HashInRange(cfg, before.cells, header) ==>
          && ok == ChecksumHolds(cfg, before.cells, header)
          && (ok && cfg.bankSwitch ==> after.cells == MadeReady(cfg, before.cells, header)))
  }

  /** And so the image is turned down. */
  lemma CorruptedImageIsRejected(cfg: Config, sound: seq<byte>, before: FlashState, imageId: nat, offset: nat, ok: bool,
                                 after: FlashState, n: nat, k: nat)
    requires cfg.Valid(|before.cells|) && |sound| == |before.cells| && CollisionFree(cfg.sha256)
    requires CheckEffect(cfg, before, imageId, offset, ok, after) && before.faults == after.faults
    requires var header := ImageAddr(cfg, imageId, offset);
             && WholeInFlash(cfg, sound, header, n) && WholeInFlash(cfg, before.cells, header, n)
             && HashInRange(cfg, sound, header) && ChecksumHolds(cfg, sound, header)
             && header + cfg.authSize <= k < header + cfg.formatSize + n && DiffersAt(cfg, sound, before.cells, header, k)
             && SameStoredHash(cfg, sound, before.cells, header)
    ensures !ok && after.cells == before.cells
  {
    hide ChecksumHolds, HashedLength, Announces, SameBits, MadeReady;
    CorruptionFailsTheCheck(cfg, sound, before.cells, ImageAddr(cfg, imageId, offset), n, k);
  }

  /** dfu_check_checksum */
  method CheckChecksum(cfg: Config, flash: NorFlash, imageId: nat, offset: nat) returns (ok: bool)
    requires cfg.Valid(|flash.cells|)
    modifies flash
    ensures CheckEffect(cfg, FlashState(old(flash.cells), old(flash.faults)), imageId, offset, ok,
                        FlashState(flash.cells, flash.faults))
  {
    hide ChecksumHolds, HashedLength, MadeReady;
    var addr := cfg.BankOf(imageId).addr;
    if addr == 0 {
      return false;
    }
    if !cfg.bankSwitch {
      addr := U32(addr + offset);
    }
    ok := CheckSha256(cfg, flash, addr);
    if ok && cfg.bankSwitch {
      SetReady(cfg, flash, addr);
    }
  }

  function ImageAddr(cfg: Config, imageId: nat, offset: nat): nat {
    if cfg.bankSwitch then cfg.BankOf(imageId).addr else U32(cfg.BankOf(imageId).addr + offset)
  }

  /** With bank switching a good image, which starts its bank, is made ready at once; a bad one is left alone. */
  lemma CheckedImageIsReady(cfg: Config, before: FlashState, imageId: nat, offset: nat, ok: bool, after: FlashState, n: nat)
    requires cfg.Valid(|before.cells|) && cfg.bankSwitch && cfg.BankOf(imageId).addr != 0
    requires CheckEffect(cfg, before, imageId, offset, ok, after) && before.faults == after.faults
    requires WholeInFlash(cfg, before.cells, cfg.BankOf(imageId).addr, n)
    ensures HashInRange(cfg, before.cells, cfg.BankOf(imageId).addr)
    ensures ok == ChecksumHolds(cfg, before.cells, cfg.BankOf(imageId).addr)
    ensures if ok then OneBitCleared(before.cells, after.cells, cfg.BankOf(imageId).addr + cfg.authSize + cfg.flagByte, cfg.notReady)
            else after.cells == before.cells
  {
    hide ChecksumHolds, HashedLength, MadeReady, OneBitCleared, Announces;
    var header := cfg.BankOf(imageId).addr;
    HashedToTheEnd(cfg, before.cells, header, n);
    if ok {
      HeaderInFlash(cfg, before.cells, header, n);
      MadeReadyClearsBit(cfg, before.cells, header);
    }
  }

  lemma HeaderInFlash(cfg: Config, cells: seq<byte>, header: nat, n: nat)
    requires cfg.Valid(|cells|) && WholeInFlash(cfg, cells, header, n)
    ensures header + cfg.authSize + CTRL_HEADER_SIZE <= |cells|
  {
  }
}
