# Firmware update pipeline: model and proofs

This project models the firmware update code of the repository in Dafny and proves what it does over whole
runs: the Matter OTA stream parser, the flash update layer, and the Bluetooth DFU session above it. All three
stand on one explicit NOR flash, whose operations may go wrong at any time.

| files | subject |
|---|---|
| `Bytes`, `Nor` | C integer widths, little-endian fields; the flash: erasing sets a 4096-byte sector to 0xFF, programming is a bitwise AND, and an operation that goes wrong may leave anything inside its own range, whether it reports this or not |
| `DfuFlash`, `ImageHash` | `dfu_update` with its lazy sector erasure, `dfu_write`, sector recovery; the checksum pass and the not_ready bit |
| `BufferCheck`, `BlockCipher` | the buffer check value; block decryption in place |
| `DfuProtocol`, `DfuService`, `ControlPoint` | the session as a state machine (`Step`); the handlers, each proved to be a step of it; the commands as bytes |
| `CommitRuns`, `SlotRuns`, `SlotRecovery`, `SlotActivation`, `PlainRuns`, `SealedRuns` | what holds in every run of that machine, and what that means to a client that knows the image in the clear |
| `PopCount`, `MpHeader` | the bit count of the pack header; the item chain of a sub-image header |
| `MatterParser`, `MatterOta` | the parser's stages as functions and the one-pass reading of a stream; the stateful parser, each method proved equal to its stage |
| `MatterChunking`, `MatterRuns`, `MatterFinalize`, `MatterStream`, `MatterLimits` | cutting the stream into blocks, whole downloads, the final activation, streams as their producer builds them, and the exact limits of these results |

The main results, in the system's own terms:

* **Matter.** However a stream is cut into blocks of at most 512 bytes, after each block the parser is where a
  one-pass reading of everything received puts it, the flash layer has been given exactly the payload bytes of
  the images of the inactive bank, without gap or overlap, and a block is refused only for a defect that reading
  has too or because the environment failed. MP_INFO is reached with the last payload byte. Activation then marks
  exactly the images that were written and checked. A stream built from images comes out as these images: any ids,
  sizes, payloads, items and addresses that are put in are the ones written, checked and made ready.
* **Update layer.** Contiguous updates, of one image or of images packed back to back, store their concatenation:
  the position invariant "sector start, or the rest of the sector is erased" is kept by lazy erasure, so that on
  sound flash no update fails on cells that were not erased, and on any flash nothing below the position changes.
* **Buffer-check sessions.** Over flash that may fail at any time, the flash always holds exactly the data the
  client has been told was committed, in the clear if it was sent encrypted; a failed commit goes back to the start of a sector and keeps the rest, and
  from there on commits are acknowledged again unless the flash fails once more.
* **Plain sessions.** 20-byte packets never find too little room. The whole image is stored exactly when it is a whole
  number of words; otherwise the last packet ends the session.
* **Batches of images.** In every run within the bank's capacity, whatever flash and commits do, slots lie one behind
  the other and a closed slot never moves. As long as no rollback reaches into the validated images they stay as
  they were validated, and activation makes ready exactly these.

Where the code does not keep such a promise for all inputs, the model keeps the code, shows an input, and says when
it does keep it:

| input | member | the promise is kept |
|---|---|---|
| a header item that reaches past byte 512 | `MpHeader.SpillsExactly`, `MpHeader.SomeHeaderSpills`, `MatterLimits.LeftoversMatter` | exactly for headers that do not spill, which the 512 bytes show |
| more than 15 sub-images | `MatterChunking.PackHeaderLength` | exactly up to 15 |
| payload sizes near 2^32 | `MatterLimits.SizeBoundIsExact`, `MatterLimits.ProgressWraps` | the progress sum is exact up to 2^32 - 512, and for no larger size |
| blocks of more than 512 bytes | `MatterLimits.BlockBoundIsTight` | up to 512; a block of 513 is one too long for some stream |
| an update whose end wraps | `DfuFlash.ConfinedExactly`, `DfuFlash.WrappedUpdateIsAccepted` | exactly when the end fits in 32 bits |
| REPORT_TARGET_INFO in mid-transfer | `CommitRuns.TargetReportSetsUp`, `CommitRuns.StaleResendPoint` | exactly while the transfer is in its first sector |
| a failed commit behind a validated image; no flash fault is needed, a packet of two bytes is enough | `SlotRecovery.FailedCommitKeepsExactly`, `SlotRecovery.OddPacketErasesFirstImage` | if the recovery succeeds, exactly when the resend point is in the bank and the sectors there hold no programmed byte of a validated image; in any case when it lies in the bank and behind the validated slots |
| a header that announces more than START_DFU did | `SlotActivation.CoveredExactly` | what the checksum is about is settled by the slot exactly when the hashed length stays in it |
| without buffer check, a length that is not a whole number of words, or a header that announces too much | `PlainRuns.PlainModeSurvivesExactly`, `PlainRuns.OddLengthIsRefused`, `PlainRuns.OversizedIsNeverStored` | exactly for whole numbers of words that announce no more than the bank holds |

Taken as given: bank addresses and sizes are sector aligned and inside a flash of at most 2 GiB; the application
callback succeeds, as the one in `subsys/dfu/silent_ota.c` does; the processor is little-endian. Header sizes, the
position of not_ready, image id values, the AES block function and SHA-256 come from headers and ROM code that
are not part of the repository and are the fields of `DfuFlash.Config`; a reboot ends a session.

## Model

| member | source | states |
|---|---|---|
| MatterRuns.FeedTracks | applications/matter_common/matter_ota.c:439-481 | for every list of blocks of at most 512 bytes and every answer of allocator and flash: never an append failure; after a run that is not refused the parser's state, pending bytes and flash writes are those of the one-pass reading of all bytes received; with good answers it is refused exactly for the defect that reading finds |
| MatterStream.StreamIsInstalled | applications/matter_common/matter_ota.c:403-481 | for every stream built from a pack header and 1 to 15 images (any items, ids, sizes, payloads and addresses) and every cutting into blocks of at most 512 bytes: MP_INFO, the writes are exactly the payloads of the images for the inactive bank under their ids, each checked, and finalize makes ready exactly their addresses |
| MatterStream.HeaderIsHeld | applications/matter_common/matter_ota.c:213-263 | once a header is in, the parser holds the id and the size it was built for, and has counted the payload bytes that came with it |
| MatterStream.HeaderIsRead | applications/matter_common/matter_ota.c:219-241 | a header built for an id below 2^16 and a payload, among any other items, reads as that id and the payload's size |
| MatterStream.ItemIsFound | applications/matter_common/matter_ota.c:88-111 | the scan finds the first item of a list with the id, at its offset and with its value |
| MatterStream.TableIsRead | applications/matter_common/matter_ota.c:403-414 | the addresses made ready are the first words of the table entries of the images for the inactive bank |
| MatterRuns.ChunkingDoesNotMatter | applications/matter_common/matter_ota.c:439-481 | two cuttings of one stream, from any two initial buffer contents, give the same answer and the same reading |
| MatterChunking.BlockTracks | applications/matter_common/matter_ota.c:439-481 | one block keeps the agreement in every stage, or reports code 2 or 3 exactly when the stream has no images or an unreadable header |
| MatterRuns.CompleteExactly | applications/matter_common/matter_ota.c:323-332 | a prefix of a complete stream is complete exactly from the last payload byte on |
| MatterRuns.MpInfoIsComplete | applications/matter_common/matter_ota.c:439-447 | the parser is in MP_INFO exactly when the reading is complete |
| MatterRuns.VerdictStays | applications/matter_common/matter_ota.c:439-447 | more bytes never change the verdict on a defective or complete stream |
| MatterRuns.WritesTile | applications/matter_common/matter_ota.c:271-338 | each flash write starts where the one before it ended, at 0 after a checksum, and stays with one image until its checksum |
| MatterChunking.PayloadContinues | applications/matter_common/matter_ota.c:277-291 | a payload that goes on: all buffered bytes are written behind the ones before, none left |
| MatterChunking.PayloadEndsInStage | applications/matter_common/matter_ota.c:292-333 | a payload that ends: what follows it is kept and the parser moves to the next image or to MP_INFO |
| MatterChunking.PayloadEndsInLog | applications/matter_common/matter_ota.c:292-316 | and the image has been given its whole payload and checked, if it is selected |
| MatterChunking.HeaderRead | applications/matter_common/matter_ota.c:213-263 | the header stage reads what the 512 header bytes say, whatever lies behind them in the buffer |
| MatterChunking.PackReaches | applications/matter_common/matter_ota.c:152-205 | the pack header stage waits, refuses an empty indicator, or goes on with the table of images and the bytes behind it |
| MatterChunking.PackHeaderLength | applications/matter_common/matter_ota.c:185 | the uint8_t header length is 72 + 12n exactly for n up to 15 |
| MatterRuns.Occupancy | applications/matter_common/matter_ota.c:113-125 | at most 511 bytes between blocks and 1023 within one, so appending never fails |
| MatterRuns.GoodAnswersGiven | applications/matter_common/matter_ota.c:439-481 | allocator, flash and checksum answers matter only to the return values 2 and 4 |
| MatterRuns.FaultsAreReported | applications/matter_common/matter_ota.c:172-318 | no memory for the table gives code 2; a failed write or checksum gives code 4 and does not move on |
| MatterRuns.NoRoomExactly | applications/matter_common/matter_ota.c:113-125 | code 1 exactly when the block does not fit the 2048 bytes, and then nothing changes |
| MatterParser.LastPiece | applications/matter_common/matter_ota.c:277-298 | once the payload's end is found it lies in the buffer, and neither the subtraction nor the uint16_t loses anything |
| MatterParser.Append | applications/matter_common/matter_ota.c:113-125 | the pending bytes grow by the block and nothing else changes |
| MatterFinalize.FinalizeMatchesFlashed | applications/matter_common/matter_ota.c:403-416 | in MP_INFO the headers made ready are those of exactly the images whose whole payload was written and checked, in the same order |
| MatterFinalize.BanksPartition | applications/matter_common/matter_ota.c:247-255 | for every n each image index belongs to exactly one bank |
| MatterLimits.BlockBoundIsTight | applications/matter_common/matter_ota.c:455-471 | a concrete stream on which a block of 513 bytes leaves the parser a header behind |
| MatterLimits.LeftoversMatter | applications/matter_common/matter_ota.c:224-238 | for every header that spills there are two fresh parsers that are fed the same blocks and read it differently, because their buffers were allocated with different content |
| MatterLimits.SizeBoundIsExact | applications/matter_common/matter_ota.c:277 | the 32-bit progress sum cannot wrap exactly for payload sizes up to 2^32 - 512 |
| MatterLimits.ProgressWraps | applications/matter_common/matter_ota.c:277-290 | a fresh parser that has been sent all of a payload of 2^32 - 1 bytes, and one byte more, in blocks of 512 is back at progress 0 |
| MatterOta.MatterOtaDb.Prepare | applications/matter_common/matter_ota.c:346-372 | a fresh parser, whatever the buffer was allocated with |
| MatterOta.MatterOtaDb.Append | applications/matter_common/matter_ota.c:113-125 | appends, or refuses exactly when 2048 bytes would be exceeded |
| MatterOta.MatterOtaDb.ProcessPackHeader | applications/matter_common/matter_ota.c:152-211 | new state and answer are those of `PackStage` |
| MatterOta.MatterOtaDb.ProcessMpHeader | applications/matter_common/matter_ota.c:213-269 | new state and answer are those of `HeaderStage`, whose id and size are those the header was built for by `MatterStream.HeaderIsRead` |
| MatterOta.MatterOtaDb.ProcessPayload | applications/matter_common/matter_ota.c:271-344 | new state and answer are those of `PayloadStage` |
| MatterOta.MatterOtaDb.ProcessBlock | applications/matter_common/matter_ota.c:439-481 | new state and return value are those of `Block` |
| MatterOta.MatterOtaDb.Finalize | applications/matter_common/matter_ota.c:403-414 | makes ready the headers `FinalizeMatchesFlashed` is about |
| MpHeader.GetItemPos | applications/matter_common/matter_ota.c:88-111 | the first item start on the chain whose id matches; -1 exactly when no item start below 512 does; reads no further than two bytes behind the header |
| MpHeader.ItemPos | applications/matter_common/matter_ota.c:88-111 | the same as a function of the buffer |
| MpHeader.FirstItemUnique | applications/matter_common/matter_ota.c:88-111 | that description determines the position |
| MpHeader.LookUpDecides | applications/matter_common/matter_ota.c:92-110 | what the 512 bytes alone say about the position, for every tail |
| MpHeader.InfoDecides | applications/matter_common/matter_ota.c:224-238 | a header that does not spill gives the same id and size for every tail |
| MpHeader.SpillsExactly | applications/matter_common/matter_ota.c:224-238 | and one that spills gives different outcomes for some two tails: an exact condition on the header bytes |
| MpHeader.SomeHeaderSpills | applications/matter_common/matter_ota.c:92-110 | a concrete header whose last byte begins an item |
| Bytes.Le16Exactly | applications/matter_common/matter_ota.c:22-25 | two bytes read as n exactly if they are n written least significant byte first |
| Bytes.Le32Exactly | applications/matter_common/matter_ota.c:28-32 | and four |
| PopCount.SwarCounts | applications/matter_common/matter_ota.c:127-136 | for every 32-bit word the five mask-and-add steps give the number of set bits |
| PopCount.WordBits | applications/matter_common/matter_ota.c:146 | a little-endian word counts the set bits of its four bytes |
| PopCount.ClearingCount | include/dfu/bt_types.h:545-552 | the loop that clears the lowest bit counts the same |
| PopCount.ClearLowestBit | include/dfu/bt_types.h:550 | clearing the lowest bit takes one off the count |
| PopCount.IndicatorCount | applications/matter_common/matter_ota.c:138-150 | the eight-word loop gives the set bits of the 32 bytes modulo 256, exact exactly up to 255 |
| DfuFlash.DfuUpdate | subsys/dfu/dfu_flash.c:768-878 | refusals leave flash and buffer alone; an accepted update marks a first header not ready, changes only the sectors from its start to its end, holds the data when it reports success, and on sound flash at a ready position succeeds and leaves a ready position |
| DfuFlash.EraseForUpdate | subsys/dfu/dfu_flash.c:845-862 | the sectors entered are erased, none below the position |
| DfuFlash.EraseThenWrite | subsys/dfu/dfu_flash.c:845-873 | erasing and then writing achieves what an update promises |
| DfuFlash.DfuWrite | subsys/dfu/dfu_flash.c:420-484 | success means the cells hold the data, by read-back, however programming behaves; erased cells and sound flash mean success |
| DfuFlash.WriteSpanExact | subsys/dfu/dfu_flash.c:427-428 | the uint16_t chunk counter covers the whole length exactly below 16 MiB |
| DfuFlash.StoredNotReady | subsys/dfu/dfu_flash.c:807-836 | after a successful first update that carries the header, the stored image is not ready, whatever the packet said |
| DfuFlash.StoredExactly | subsys/dfu/dfu_flash.c:807-873 | a successful update has stored its data bit for bit, but for not_ready set in a first packet that carries the image header |
| DfuFlash.OversizedIsRefused | subsys/dfu/dfu_flash.c:379-404 | an update at offset 0 whose header announces more than the bank holds changes neither flash nor buffer |
| DfuFlash.StoredHeaderFits | subsys/dfu/dfu_flash.c:379-404 | the header a successful first update has put into the flash announces no more than the bank holds |
| DfuFlash.RefusedExactly | subsys/dfu/dfu_flash.c:365-418 | each refusal has exactly its reason, and changes nothing |
| DfuFlash.ContiguousUpdates | subsys/dfu/dfu_flash.c:838-873 | any run of contiguous updates stores its concatenation, also across images by way of the total offset |
| DfuFlash.ConfinedExactly | subsys/dfu/dfu_flash.c:365-418 | an accepted update stays in its bank exactly when its unwrapped end fits in 32 bits; an empty one exactly when it is not at the very end |
| DfuFlash.WrappedUpdateIsAccepted | subsys/dfu/dfu_flash.c:365-418 | for every bank, eight bytes at offset 2^32 - 4 pass all checks and start below the bank |
| DfuFlash.Confinement | subsys/dfu/dfu_flash.c:365-418 | such an update changes nothing outside the bank, a refused one nothing at all |
| DfuFlash.CheckBlank | subsys/dfu/dfu_flash.c:219-269 | blank is reported only of a sector of 0xFF, and of every such sector if the reads work |
| DfuFlash.EraseSectorWithRetry | subsys/dfu/dfu_flash.c:717-758 | success means a blank sector whatever the erase reported; only that sector changes; it gives up only after three faults |
| ImageHash.ProcessImageSha256 | subsys/dfu/dfu_flash.c:113-145 | the chunks fed to the hash concatenate to the range with only not_ready cleared, for every length |
| ImageHash.CheckSha256 | subsys/dfu/dfu_flash.c:187-210 | the verdict is whether the stored hash is the hash of that |
| ImageHash.SetReady | subsys/dfu/dfu_flash.c:293-302 | every bit of the mask is cleared, every other bit of that byte and every other byte stays; a fault spoils at most the control header |
| ImageHash.ReadyWrite | subsys/dfu/dfu_flash.c:297-301 | writing the patched header over itself on NOR flash clears just the bit |
| ImageHash.VerdictIgnoresReadiness | subsys/dfu/dfu_flash.c:126-144 | the verdict is the same before and after an image is made ready |
| ImageHash.VerdictIsLocal | subsys/dfu/dfu_flash.c:187-210 | it depends on the bytes from the header to the end of what is hashed only |
| ImageHash.EveryImageByteIsHashed | subsys/dfu/dfu_flash.c:187-200 | any difference from the control header to the end of the announced payload, not_ready apart, changes what is hashed |
| ImageHash.NothingBehindIsHashed | subsys/dfu/dfu_flash.c:187-200 | and no byte behind that end does |
| ImageHash.CorruptedImageIsRejected | subsys/dfu/dfu_flash.c:187-210 | so with a hash free of collisions an image that differs from a good one anywhere up to its end, under the same stored hash, does not pass |
| ImageHash.MaskedClearsBit | subsys/dfu/dfu_flash.c:126-141 | the hash sees the flash with the bits of not_ready cleared and every other bit as it is |
| ImageHash.CheckedImageIsReady | subsys/dfu/dfu_flash.c:886-948 | with bank switching exactly a good image has its bit cleared, and no other bit |
| ImageHash.CheckChecksum | subsys/dfu/dfu_flash.c:886-948 | the verdict at the image's address; with bank switching a good image is made ready at once |
| BufferCheck.CheckBufCrc | subsys/dfu/dfu_flash.c:676-708 | accepted exactly for even lengths and the XOR of the even bytes over the XOR of the odd bytes |
| BufferCheck.CheckValueOfConcat | subsys/dfu/dfu_flash.c:689-696 | an XOR homomorphism over concatenation behind an even length |
| BufferCheck.OneByteIsDetected | subsys/dfu/dfu_flash.c:698-702 | any change to exactly one byte changes the value |
| BlockCipher.DecryptImage | subsys/dfu/dfu_flash.c:544-566 | block-wise image of the original data, also in place; the rest of the last block and beyond untouched |
| BlockCipher.DecryptUndoesEncrypt | subsys/dfu/dfu_flash.c:544-566 | undoes block-wise encryption for every length |
| BlockCipher.ByBlocksSeals | subsys/dfu/dfu_flash.c:544-566 | every whole block is treated on its own and in its place, and the rest is untouched: this determines the result |
| BlockCipher.SealedIsRecovered | subsys/dfu/dfu_flash.c:544-566 | the device recovers what a sender encrypted block by block |
| BlockCipher.ByBlocksSplit | subsys/dfu/dfu_flash.c:553-558 | whole blocks in front may be treated on their own |
| DfuService.Service.constructor | subsys/dfu/dfu_service.c:31-50 | the globals before the first command |
| DfuService.Service.PacketReq | subsys/dfu/dfu_service.c:65-235 | a packet is a step of the protocol, with and without buffer check |
| DfuService.Service.BufferCheckProcess | subsys/dfu/dfu_service.c:380-568 | a CRC report is a step of the protocol: the three rejections, the commit, the recovery |
| DfuService.Service.StartDfuReq | subsys/dfu/dfu_service.c:727-896 | parses the control header and records the image behind the last slot, or refuses it |
| DfuService.Service.ReceiveImageInfo | subsys/dfu/dfu_service.c:899-921 | sets the offset, and at 0 or 12 empties the buffer and the resend point |
| DfuService.Service.HandleValidFw | subsys/dfu/dfu_service.c:589-627 | checks the image and, in single-bank mode, closes its slot |
| DfuService.Service.HandleActiveImage | subsys/dfu/dfu_service.c:629-645 | makes ready the recorded images and spoils at most their control headers |
| DfuService.Service.ControlPointReq | subsys/dfu/dfu_service.c:697-1177 | every modelled command is a step of the protocol; one of wrong length changes nothing |
| ControlPoint.DecodeExactly | subsys/dfu/dfu_service.c:727-1177 | which bytes are which command: exactly an opcode, fields least significant byte first, and the right length |
| ControlPoint.StartHeaderIsRead | subsys/dfu/dfu_service.c:732-754 | chip, image id and payload length are read as the client put them, encrypted or not |
| ControlPoint.StartAnswered | subsys/dfu/dfu_service.c:785-891 | success exactly for this chip and a known image; then packets count and the image has its slot behind the one before, and no other slot changes |
| ControlPoint.ShortCommands | subsys/dfu/dfu_service.c:899-1060 | what the short commands change, field by field, given as bytes |
| ControlPoint.PacketTakenExactly | subsys/dfu/dfu_service.c:88-115 | with buffer check a packet is taken exactly if 2048 bytes hold it, joins those before it, and otherwise ends the session |
| ControlPoint.ReportAcceptedExactly | subsys/dfu/dfu_service.c:392-425 | a report given as bytes is accepted exactly for the right size, or the complete image, an even length, and check bytes that are the XOR of the odd and of the even bytes |
| DfuProtocol.StepKeepsShape | subsys/dfu/dfu_service.c:31-42 | no step outgrows the buffer or the slots |
| CommitRuns.CommittedDataIsStored | subsys/dfu/dfu_service.c:380-568 | in every run over faulty flash, flash [0, cur_offset) is the committed data, decrypted and marked, and the resend point is the start of its sector |
| SealedRuns.PlainDataIsStored | subsys/dfu/dfu_service.c:427-549 | in every run over faulty flash, with or without encryption, flash [0, cur_offset) is the data in the clear that was acknowledged, a header in the first piece marked not ready and no other bit changed; and what that header announces fits the bank |
| SealedRuns.AcknowledgedPieceIsKept | subsys/dfu/dfu_service.c:427-477 | one acknowledged report stores the piece in the clear behind the ones before |
| CommitRuns.StepKeeps | subsys/dfu/dfu_service.c:380-568 | each allowed command keeps this, whatever the flash does |
| CommitRuns.CommitAdvances | subsys/dfu/dfu_service.c:442-477 | an acknowledged commit appends the pending packets to the committed data |
| CommitRuns.CommitRollsBack | subsys/dfu/dfu_service.c:478-549 | a failed one goes back to the start of the sector, keeps the prefix up to there, and leaves a position where sound flash can go on |
| CommitRuns.RecoveryToleratesTwoFaults | subsys/dfu/dfu_flash.c:717-758 | a recovery with fewer than three faults succeeds: the sector is erased and the client told to send it again |
| CommitRuns.ResendPoint | subsys/dfu/dfu_service.c:459-513 | the resend point is less than a sector behind, so the two-sector recovery is never reached |
| CommitRuns.GoodFlashCommits | subsys/dfu/dfu_service.c:436-477 | on flash that has not failed, every commit that passes the length checks is acknowledged |
| CommitRuns.CommitsAgainAfterRollback | subsys/dfu/dfu_service.c:436-549 | after any rollback, and any run from there, every such commit is acknowledged unless the flash has failed again since |
| CommitRuns.RejectionKeeps | subsys/dfu/dfu_service.c:392-425 | a report is turned down exactly for size, agreement or check value, and then only empties the buffer |
| CommitRuns.CorruptionIsRejected | subsys/dfu/dfu_service.c:407-425 | data that arrives with one byte changed is turned down and never reaches the flash |
| CommitRuns.TargetReportSetsUp | subsys/dfu/dfu_service.c:1028-1037 | REPORT_TARGET_INFO sets up a new transfer, with everything that relies on, exactly when the one before is in its first sector |
| CommitRuns.StaleResendPoint | subsys/dfu/dfu_service.c:478-549 | a commit that fails after it goes back to the stale resend point, which is offset 0 exactly in that case, and otherwise ahead of the data |
| SlotRuns.SlotsStayInPlace | subsys/dfu/dfu_service.c:788-826 | in every run within the bank's capacity, whatever flash, commits and rollbacks do, the offset of slot k is the sum of the sizes before it and closed slots never move |
| SlotRuns.StepPlaces | subsys/dfu/dfu_service.c:589-826 | every command keeps this |
| SlotRuns.ValidatedImagesStay | subsys/dfu/dfu_service.c:589-645 | in every run whose rollbacks, if any, start behind the validated slots, each validated slot still holds what was validated and passes its checksum |
| SlotRuns.StepKeeps | subsys/dfu/dfu_service.c:589-826 | each allowed command keeps this |
| SlotRuns.StartKeeps | subsys/dfu/dfu_service.c:788-826 | START_DFU records the image with its announced size at the sum of the validated sizes, and disturbs none of them |
| SlotRuns.EarlierSlotsStay | subsys/dfu/dfu_service.c:798-825 | recording an image again never moves earlier slots |
| SlotRuns.SlotLaidOut | subsys/dfu/dfu_service.c:810-825 | the offset of slot k is the sum of the sizes before it |
| SlotRuns.SlotsAreDisjoint | subsys/dfu/dfu_service.c:810-825 | slots are pairwise disjoint and neighbours touch |
| SlotRuns.CheckVerifies | subsys/dfu/dfu_service.c:600-623 | a check that passes on sound flash has verified the slot |
| SlotActivation.ActivationImpliesVerification | subsys/dfu/dfu_service.c:629-645 | activation makes ready exactly the validated slots; in each the mask of not_ready is cleared, every other bit is as it was validated, and its checksum passes; no other byte changes |
| SlotActivation.MadeAllReadyTouchesFlags | subsys/dfu/dfu_service.c:639-644 | only the flag bytes of the recorded images change |
| SlotActivation.CoveredExactly | subsys/dfu/dfu_flash.c:187-210 | the hashed bytes are determined by the slot exactly when the hashed length stays within it |
| SlotRecovery.FailedCommitKeepsExactly | subsys/dfu/dfu_service.c:478-549 | a failed commit with a successful recovery keeps the validated images exactly if the resend point is in the bank and the sectors there hold no programmed byte of theirs, in whichever slot |
| SlotRecovery.SparedOrLost | subsys/dfu/dfu_service.c:478-549 | however the recovery ends, a resend point behind the validated slots does no harm; one at a programmed validated byte does once that sector is recovered |
| SlotRecovery.SafeToReport | subsys/dfu/dfu_service.c:412-549 | two conditions a client can check before it reports, under which the run stays among those of ValidatedImagesStay |
| SlotRecovery.SoundCommitIsAcknowledged | subsys/dfu/dfu_service.c:436-477 | one of them: the length checks pass, writing may go on behind the slot's data, and the flash works; then there is no rollback, in any slot |
| SlotRecovery.OddReportErases | subsys/dfu/dfu_service.c:478-549 | without any flash fault: a report over a buffer that is not a whole number of words erases a sector of a validated image |
| SlotRecovery.OddPacketErasesFirstImage | subsys/dfu/dfu_service.c:484-485 | RECEIVE_FW_IMAGE_INFO at 0, a packet of two bytes and its report erase the first sector of the first image |
| PlainRuns.PlainModeIsLossless | subsys/dfu/dfu_service.c:117-233 | the flash ends up with the whole image, each packet decrypted on its own, the header marked, nothing below changed and nothing left over |
| SealedRuns.PlainImageIsStored | subsys/dfu/dfu_service.c:117-233 | after all packets of a plain session that is still alive, the flash holds the image in the clear, its mark apart, and its header announces no more than the bank holds |
| PlainRuns.PacketsKeep | subsys/dfu/dfu_service.c:117-233 | after any number of packets (but the last of a length that is not a whole number of words) nothing has been refused, cur_offset + used counts the bytes received, and flash and buffer hold the image so far |
| PlainRuns.PacketFits | subsys/dfu/dfu_service.c:120-184 | neither overflow branch is reached, for any length, and every write out is a whole number of words, the last exactly if the image is |
| PlainRuns.PlainStaysInside | subsys/dfu/dfu_service.c:117-168 | for packets of any size over any flash, the session goes on only while buffer and image have room, and a packet without room ends it |
| PlainRuns.LengthCheckIsExact | subsys/dfu/dfu_service.c:146-147 | the 32-bit length check is right exactly for images below 2^32 - 2040 bytes |
| PlainRuns.PlainModeSurvivesExactly | subsys/dfu/dfu_service.c:117-233 | a run of all packets ends in a live session with everything written exactly when the image is a whole number of words and announces no more than the bank holds |
| PlainRuns.OversizedIsNeverStored | subsys/dfu/dfu_service.c:181-211 | of an image that announces more, no packet ever changes the flash, and the first write out ends the session |
| PlainRuns.OddLengthIsRefused | subsys/dfu/dfu_service.c:181-211 | otherwise its last packet ends the session, the flash as it was before that packet |

## Left out

- MatterRuns.FeedTracks: says nothing of streams whose reading depends on more than the stream (spilling headers, more than 15 sub-images, payloads above 2^32 - 512 bytes); the exact limits are lemmas of their own.
- MatterOta.MatterOtaDb.Prepare: does not model a failing allocation in rtk_matter_ota_prepare, nor clear, abort and apply.
- MatterOta.MatterOtaDb.ProcessMpHeader: the active bank is one of two; the code compares with two enumerators and would, for a third value, write every image and make none ready.
- MatterOta.MatterOtaDb.ProcessPackHeader: for more than 164 sub-images the code copies from behind its buffer; the model's table of images then ends with the buffer.
- MatterOta.MatterOtaDb.Finalize: needs the table of images, which the code assumes; the header write itself is `ImageHash.SetReady`.
- dfu_write_data_to_flash and dfu_checksum, used by the Matter parser, are not part of the repository: what they answer is a parameter and what they are asked is logged.
- CommitRuns.CommittedDataIsStored: covers slot offset 0, packets with buffer check on, and transfers set up by RECEIVE_FW_IMAGE_INFO at offset 0, or by REPORT_TARGET_INFO while the resend point is 0, or continued where they are, for the reasons `TargetReportSetsUp` and `OddPacketErasesFirstImage` give.
- SlotRuns.ValidatedImagesStay: covers images of one temporary bank, each recorded by START_DFU before its data and its check, rollbacks only where they spare the validated images, and no flash fault while a checksum is read (the code ignores failed reads there).
- SlotRecovery.FailedCommitKeepsExactly: speaks of recoveries that succeed; what a recovery that fails leaves in its sector is up to the faults.
- SlotActivation.ActivationImpliesVerification: the checksum is claimed after activation where it covers no more than the slot, for the reason `CoveredExactly` gives. The content of the slot is claimed in any case.
- SealedRuns.PlainDataIsStored: what the header announces is claimed only if the first piece carries the control header; the code looks at the front of its buffer whether or not that piece has filled it, and at no later piece.
- ImageHash.CorruptedImageIsRejected: takes SHA-256 to be free of collisions, which is an idealisation; `EveryImageByteIsHashed` needs no such thing.
- PlainRuns.PlainModeIsLossless: takes flash without faults and a header whose announced size fits the bank; without buffer check any failure ends the session.
- DfuService.Service.ControlPointReq: leaves out SYSTEM_RESET, connection parameters, IC type, image version, handshake and image copy, and the answers to unknown opcodes.
- Flash reads that report success are exact; locking and unlocking of flash protection is not modelled, since the erase failure path of dfu_update skips it.
- Compressed images are compiled out; user-data images are not made ready in the model, their ids being unknown.
- Bluetooth transport, message queues, timers, watchdog, logging, the image copy command, version reports and the tools: input and output without a deep property.
