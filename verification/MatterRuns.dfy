/** Whole runs of the Matter parser: any number of blocks, what they come to, and the final activation. */
module MatterRuns {
  import opened Bytes
  import opened MpHeader
  import opened MatterParser
  import opened MatterChunking

  /** What rtk_matter_ota_prepare sets up; the buffer content is whatever malloc returned. */
  predicate Fresh(p: Parser) {
    p.Wf() && p.stage == PackHeader && p.off == 0 && p.num == 0 && !p.hasTable && p.log == []
  }

  /** Feeds the blocks in order until one is refused. */
  function Feed(p: Parser, blocks: seq<seq<byte>>, answers: seq<Answers>): (r: (Parser, nat))
    requires p.Wf() && |answers| == |blocks|
    ensures r.0.Wf()
  {
    if blocks == [] then (p, 0)
    else
      var n := |blocks| - 1;
      var r := Feed(p, blocks[..n], answers[..n]);
      if r.1 != 0 then r else Block(r.0, blocks[n], answers[n])
  }

  predicate AtMost512(blocks: seq<seq<byte>>) {
    forall i :: 0 <= i < |blocks| ==> |blocks[i]| <= MAX_BLOCK
  }

  predicate AllWell(answers: seq<Answers>) {
    forall i :: 0 <= i < |answers| ==> answers[i] == ALL_WELL
  }

  lemma PackAnswers(p: Parser, ans: Answers)
    requires p.Wf() && PackStage(p, ans).1
    ensures PackStage(p, ans) == PackStage(p, ALL_WELL)
  {
    hide IndicatorCount, MoveDown, SubHeaders;
  }

  lemma PayloadAnswers(p: Parser, ans: Answers)
    requires p.Wf() && PayloadStage(p, ans).1
    ensures PayloadStage(p, ans) == PayloadStage(p, ALL_WELL)
  {
    hide LastPiece, Advanced;
  }

  /** What the flash layer and the allocator answer matters only where the block is given up. */
  lemma GoodAnswersGiven(p: Parser, b: seq<byte>, ans: Answers)
    requires p.Wf() && (Block(p, b, ans).1 == 0 || Block(p, b, ans).1 == 1 || Block(p, b, ans).1 == 3)
    ensures Block(p, b, ans) == Block(p, b, ALL_WELL)
  {
    hide PackStage, HeaderStage, PayloadStage, Append;
    if p.stage != MpInfo && p.off + |b| <= BUF_SIZE {
      PackAnswers(Append(p, b), ans);
      var header := HeaderStage(PackStage(Append(p, b), ans).0);
      if header.1 {
        PayloadAnswers(header.0, ans);
      }
    }
  }

  /** A fault in the environment is reported and not passed over: without memory for the table the pack header is
      not taken, a write that fails is not logged and leaves the image where it was, and an image whose checksum
      fails is not left. */
  lemma FaultsAreReported(p: Parser, b: seq<byte>, ans: Answers)
    requires p.Wf() && p.off + |b| <= BUF_SIZE
    ensures p.stage == PackHeader && p.off + |b| >= PACK_HEADER_LEN1 && !p.hasTable && !ans.mallocOk ==> Block(p, b, ans).1 == 2
    ensures p.stage == ImagePayload && p.valid && !ans.writeOk ==>
              var r := Block(p, b, ans);
              r.1 == 4 && r.0.log == p.log && r.0.down == p.down && r.0.idx == p.idx && r.0.stage == ImagePayload
    ensures p.stage == ImagePayload && p.valid && ans.writeOk && !ans.checksumOk && U32(p.down + p.off + |b|) >= p.size ==>
              var r := Block(p, b, ans);
              r.1 == 4 && r.0.idx == p.idx && r.0.stage == ImagePayload
  {
    hide IndicatorCount, MoveDown, SubHeaders, ItemPos, FirstItem, LastPiece, Advanced;
  }

  /** And a block is turned away for want of room exactly when 2048 bytes cannot hold it. */
  lemma NoRoomExactly(p: Parser, b: seq<byte>, ans: Answers)
    requires p.Wf()
    ensures Block(p, b, ans).1 == 1 <==> p.stage != MpInfo && p.off + |b| > 2048
    ensures Block(p, b, ans).1 == 1 ==> Block(p, b, ans).0 == p
  {
    hide PackStage, HeaderStage, PayloadStage, Append;
  }

  /** The buffer never holds more than 511 bytes between blocks nor more than 1023 within one. */
  lemma Occupancy(p: Parser, s: seq<byte>, b: seq<byte>)
    requires Tracks(p, s) && |b| <= MAX_BLOCK
    ensures p.off < MAX_BLOCK && p.off + |b| < 2 * MAX_BLOCK
    ensures forall ans: Answers :: Block(p, b, ans).1 != 1
  {
    hide Info, Records, IndicatorCount, Finished, LocateImage, PackStage, HeaderStage, PayloadStage;
    if Locate(s).AwaitPack? {
      ShortPackHeader(s);
    }
  }

  /** A defect in the stream stays one, and nothing behind the last payload changes the reading. */
  lemma VerdictStays(s: seq<byte>, b: seq<byte>)
    requires Locate(s).NoImages? || Locate(s).BadHeader? || Locate(s).Unspecified? || Locate(s).Complete?
    ensures Locate(s + b) == Locate(s)
  {
    hide IndicatorCount, LocateImage, Finished;
    SameIndicator(s, s + b);
    if 0 < IndicatorCount(s) <= MAX_IMAGES {
      LocateExtends(s, b, FirstImagePos(IndicatorCount(s)), 0, IndicatorCount(s), Bank0);
    }
  }

  lemma FreshTracks(p: Parser)
    requires Fresh(p)
    ensures Tracks(p, [])
  {
    assert p.Pending() == [];
  }

  /** The main result: however the stream is cut into blocks of at most 512 bytes, after each block the parser
      is where a one-pass reading of everything received puts it, and it refuses a block only for a defect that
      reading has too, or because the allocator, the flash or the checksum failed. */
  lemma {:induction false} FeedTracks(p: Parser, blocks: seq<seq<byte>>, answers: seq<Answers>)
    requires Fresh(p) && |answers| == |blocks| && AtMost512(blocks) && !Locate(Concat(blocks)).Unspecified?
    ensures var r := Feed(p, blocks, answers);
            && r.1 != 1
            && (r.1 == 0 ==> Tracks(r.0, Concat(blocks)) && r.0.bank == p.bank)
            && (AllWell(answers) ==> BlockOutcome(r, Concat(blocks), p.bank))
  {
    hide Block, Locate, Tracks;
    if blocks == [] {
      FreshTracks(p);
      NothingReceived();
    } else {
      var n := |blocks| - 1;
      var s, b := Concat(blocks[..n]), blocks[n];
      if Locate(s).Unspecified? {
        VerdictStays(s, b);
      }
      FeedTracks(p, blocks[..n], answers[..n]);
      var r := Feed(p, blocks[..n], answers[..n]);
      if r.1 == 0 {
        Occupancy(r.0, s, b);
        BlockTracks(r.0, s, b);
        if Block(r.0, b, answers[n]).1 == 0 {
          GoodAnswersGiven(r.0, b, answers[n]);
        }
      } else if AllWell(answers) {
        VerdictStays(s, b);
      }
    }
  }

  lemma NothingReceived()
    ensures Locate([]) == AwaitPack
  {
  }

  /** Two parsers have read the same: same position, same image, same bytes given to the flash. */
  ghost predicate SameReading(p: Parser, q: Parser)
    requires p.Wf() && q.Wf()
  {
    && p.stage == q.stage && p.bank == q.bank && p.num == q.num
    && Records(p.log) == Records(q.log)
    && (p.stage != PackHeader ==> p.idx == q.idx && p.subHeaders == q.subHeaders)
    && (p.stage == ImagePayload ==> p.imageId == q.imageId && p.size == q.size && p.valid == q.valid && p.down == q.down)
    && (p.stage != MpInfo ==> p.Pending() == q.Pending())
  }

  /** Any two ways of cutting the same stream, even with different leftovers in the buffer beforehand, come to
      the same answer and the same reading. */
  lemma ChunkingDoesNotMatter(p: Parser, q: Parser, blocks: seq<seq<byte>>, others: seq<seq<byte>>,
                              answers: seq<Answers>, answers': seq<Answers>)
    requires Fresh(p) && Fresh(q) && p.bank == q.bank
    requires |answers| == |blocks| && AtMost512(blocks) && AllWell(answers)
    requires |answers'| == |others| && AtMost512(others) && AllWell(answers')
    requires Concat(blocks) == Concat(others) && !Locate(Concat(blocks)).Unspecified?
    ensures var r, r' := Feed(p, blocks, answers), Feed(q, others, answers');
            r.1 == r'.1 && (r.1 == 0 ==> SameReading(r.0, r'.0))
  {
    FeedTracks(p, blocks, answers);
    FeedTracks(q, others, answers');
    var r, r' := Feed(p, blocks, answers), Feed(q, others, answers');
    if r.1 == 0 {
      TracksIsAFunction(r.0, r'.0, Concat(blocks));
    } else {
      hide Block, Tracks, Locate;
    }
  }

  lemma TracksIsAFunction(p: Parser, q: Parser, s: seq<byte>)
    requires Tracks(p, s) && Tracks(q, s) && p.bank == q.bank
    ensures SameReading(p, q)
  {
    hide Info, Records, IndicatorCount, Finished, LocateImage, Locate;
    NoLogNoRecords();
  }

  lemma NoLogNoRecords()
    ensures Records([]) == Some([])
  {
  }

  // ---------- how the writes lie ----------

  lemma {:induction false} RecordsOfPrefix(log: seq<StoreOp>, k: nat)
    requires k <= |log| && Records(log).Some?
    ensures Records(log[..k]).Some?
    decreases |log| - k
  {
    if k == |log| {
      assert log[..k] == log;
    } else {
      RecordsOfPrefix(log, k + 1);
      assert log[..k + 1][..k] == log[..k];
    }
  }

  /** The record a write would continue: the last one, unless its image has been checked. */
  predicate Open(rs: seq<Record>) { rs != [] && !rs[|rs| - 1].checked }

  /** In a parser that has kept up with its stream the writes tile every image: each write starts where the one
      before it ended, at 0 after a checksum, and stays with its image until that image's checksum; nothing is made
      ready on the way. */
  lemma WritesTile(p: Parser, s: seq<byte>, k: nat)
    requires Tracks(p, s) && k < |p.log|
    ensures Records(p.log[..k]).Some?
    ensures var rs := Records(p.log[..k]).value;
            match p.log[k]
            case Write(imageId, offset, _) =>
              if Open(rs) then imageId == rs[|rs| - 1].imageId && offset == |rs[|rs| - 1].bytes| else offset == 0
            case Checksum(imageId) => Open(rs) && imageId == rs[|rs| - 1].imageId
            case MakeReady(_) => false
  {
    hide Info, IndicatorCount, Finished, LocateImage;
    if p.log != [] {
      RecordsOfPrefix(p.log, k);
      RecordsOfPrefix(p.log, k + 1);
      assert p.log[..k + 1] == p.log[..k] + [p.log[k]];
      RecordsAdd(p.log[..k], p.log[k]);
    }
  }

  // ---------- when the last payload byte has arrived ----------

  lemma {:induction false} CompleteAtPrefix(s: seq<byte>, k: nat, pos: nat, idx: nat, num: nat)
    requires idx <= num && pos <= k <= |s| && LocateImage(s, pos, idx, num).Complete?
    ensures pos <= LocateImage(s, pos, idx, num).pos
    ensures LocateImage(s[..k], pos, idx, num).Complete? <==> LocateImage(s, pos, idx, num).pos <= k
    decreases num - idx
  {
    hide Info;
    if idx < num {
      var next := ImageEnd(s, pos);
      PassImage(s, s, pos, idx, num, Bank0);
      if next <= k {
        SliceOfPrefix(s, k, pos, pos + MP_HEADER_SIZE);
        assert WholeImage(s[..k], pos);
        PassImage(s[..k], s[..k], pos, idx, num, Bank0);
        CompleteAtPrefix(s, k, next, idx + 1, num);
      } else {
        CompleteAtPrefix(s, |s|, next, idx + 1, num);
        assert s[..|s|] == s;
        if pos + MP_HEADER_SIZE <= k {
          SliceOfPrefix(s, k, pos, pos + MP_HEADER_SIZE);
        }
      }
    }
  }

  /** MP_INFO is reached with the last payload byte: not a byte earlier, and no later. */
  lemma CompleteExactly(s: seq<byte>, k: nat)
    requires Locate(s).Complete? && k <= |s|
    ensures Locate(s[..k]).Complete? <==> Locate(s).pos <= k
  {
    hide IndicatorCount, LocateImage;
    var num := IndicatorCount(s);
    var first := FirstImagePos(num);
    if k >= PACK_HEADER_LEN1 {
      SliceOfPrefix(s, k, 0, PACK_HEADER_LEN1);
      SameIndicator(s, s[..k]);
    }
    CompleteAtPrefix(s, if first <= k then k else |s|, first, 0, num);
  }

  lemma MpInfoIsComplete(p: Parser, s: seq<byte>)
    requires Tracks(p, s)
    ensures p.stage == MpInfo <==> Locate(s).Complete?
  {
  }
}
