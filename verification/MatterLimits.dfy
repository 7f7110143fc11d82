/** The limits of the chunking result: streams on which the code does depend on more than the bytes received, or
    on how they were cut. Each is reached by feeding a fresh parser. */
module MatterLimits {
  import opened Bytes
  import opened MpHeader
  import opened MatterParser
  import opened MatterChunking
  import opened MatterRuns
  import PopCount

  // ---------- headers that spill ----------

  /** What the header stage has found: nothing, or image id and payload size. */
  function HeaderOutcome(p: Parser): Option<(nat, nat)>
    requires p.Wf()
  {
    var r := HeaderStage(p);
    if r.1 then Some((r.0.imageId, r.0.size)) else None
  }

  lemma OutcomeFromTail(p: Parser, h: seq<byte>, t: seq<byte>, rest: seq<byte>)
    requires |h| == MP_HEADER_SIZE && |t| == 6 && p.mem == h + t + rest
    requires p.Wf() && p.stage == ImageHeader && p.off == MP_HEADER_SIZE
    ensures HeaderOutcome(p) == Fields(h + t)
  {
    hide FirstItem, ItemPos, Le16, Le32;
    assert (h + t) + rest == p.mem;
    SameFields(h + t, p.mem);
  }

  lemma {:induction false} SameItemPos(itemId: nat, a: seq<byte>, b: seq<byte>, i: nat)
    requires SCAN_REACH <= |a| <= |b| && a == b[..|a|]
    ensures ItemPos(itemId, a, i) == ItemPos(itemId, b, i)
    decreases MP_HEADER_SIZE - i
  {
    if i < MP_HEADER_SIZE && ItemId(a, i) != itemId {
      SameItemPos(itemId, a, b, NextItem(a, i));
    }
  }

  lemma SameLe(a: seq<byte>, b: seq<byte>, i: nat)
    requires |a| <= |b| && a == b[..|a|]
    ensures i + 2 <= |a| ==> Le16(a, i) == Le16(b, i)
    ensures i + 4 <= |a| ==> Le32(a, i) == Le32(b, i)
  {
    hide Val;
  }

  lemma SameFields(a: seq<byte>, b: seq<byte>)
    requires FIELD_REACH <= |a| <= |b| && a == b[..|a|]
    ensures Fields(a) == Fields(b)
  {
    hide Le16, Le32, ItemPos, FirstItem;
    SameItemPos(ITEM_IMAGE_ID, a, b, 0);
    SameItemPos(ITEM_DATA_LEN, a, b, 0);
    var idPos, lenPos := ItemPos(ITEM_IMAGE_ID, a, 0), ItemPos(ITEM_DATA_LEN, a, 0);
    FirstItemRange(ITEM_IMAGE_ID, a, idPos);
    FirstItemRange(ITEM_DATA_LEN, a, lenPos);
    if idPos != -1 && lenPos != -1 {
      SameLe(a, b, idPos + 3);
      SameLe(a, b, lenPos + 3);
    }
  }

  lemma FirstItemRange(itemId: nat, p: seq<byte>, r: int)
    requires SCAN_REACH <= |p| && FirstItem(itemId, p, 0, r)
    ensures r == -1 || 0 <= r < MP_HEADER_SIZE
  {
  }

  // ---------- blocks that are too long ----------

  /** A pack header of two images, and an image header with an empty payload. */
  function TwoImages(): (s: seq<byte>)
    ensures |s| == 96 && forall k :: 0 <= k < 96 ==> s[k] == if k == INDICATOR_POS then 3 else 0
  {
    seq(96, k => if k == INDICATOR_POS then 3 else 0)
  }

  function EmptyImage(): (h: seq<byte>)
    ensures |h| == MP_HEADER_SIZE
    ensures h[..12] == [0x12, 0, 2, 0, 0, 4, 0, 4, 0, 0, 0, 0]
  {
    [0x12, 0, 2, 0, 0, 4, 0, 4, 0, 0, 0, 0] + seq(MP_HEADER_SIZE - 12, _ => 0)
  }

  lemma EmptyImageInfo()
    ensures Info(EmptyImage()) == Found(0, 0)
  {
    var h := EmptyImage();
    assert forall k :: 0 <= k < 12 ==> h[k] == h[..12][k];
    assert Val(h[0]) == 0x12 && Val(h[1]) == 0 && Val(h[2]) == 2 && Val(h[3]) == 0 && Val(h[4]) == 0;
    assert Val(h[5]) == 4 && Val(h[6]) == 0 && Val(h[7]) == 4;
    assert Val(h[8]) == 0 && Val(h[9]) == 0 && Val(h[10]) == 0 && Val(h[11]) == 0;
    assert LookUp(ITEM_IMAGE_ID, h, 0) == At(0);
    assert Le16(h, 0) == 0x12 && Le16(h, 5) == 4;
    assert LookUp(ITEM_DATA_LEN, h, 0) == LookUp(ITEM_DATA_LEN, h, 5) == At(5);
  }

  lemma TwoImagesCount()
    ensures IndicatorCount(TwoImages()) == 2
  {
    var ind := TwoImages()[INDICATOR_POS..PACK_HEADER_LEN1];
    assert |ind| == 32 && ind[0] == 3 && forall k :: 1 <= k < 32 ==> ind[k] == 0;
    OnlyFirstByte(ind, 32);
    assert ind[..32] == ind;
  }

  lemma {:induction false} OnlyFirstByte(s: seq<byte>, n: nat)
    requires 1 <= n <= |s| && s[0] == 3 && forall k :: 1 <= k < |s| ==> s[k] == 0
    ensures PopCount.SetBits(s[..n]) == 2
  {
    PopCount.SetBitsStep(s, n - 1);
    ThreeHasTwoBits();
    if n == 1 {
      assert s[..0] == [];
    } else {
      OnlyFirstByte(s, n - 1);
    }
  }

  lemma ThreeHasTwoBits()
    ensures PopCount.ByteBits(3) == 2 && PopCount.ByteBits(0) == 0
  {
    assert PopCount.BitCount(3) == 1 + PopCount.BitCount(1);
    assert PopCount.BitCount(1) == 1;
  }

  function TightStream(): (s: seq<byte>)
    ensures |s| == 1120 && s[..96] == TwoImages() && s[96..608] == EmptyImage() && s[608..1120] == EmptyImage()
  {
    TwoImages() + EmptyImage() + EmptyImage()
  }

  lemma TightViews()
    ensures var t := TightStream();
            && IndicatorCount(t) == 2 && HeaderAt(t, 96) == Found(0, 0)
            && Locate(t) == Complete(1120)
            && Locate(t[..607]) == AwaitHeader(0, 96) && Finished(t[..607], 96, 0, 2, Bank0) == Finished(t[..607], 96, 0, 2, Bank1) == []
  {
    hide Info, IndicatorCount;
    var t := TightStream();
    EmptyImageInfo();
    TwoImagesCount();
    SliceOfPrefix(t, 96, 0, PACK_HEADER_LEN1);
    SliceOfPrefix(t, 607, 0, PACK_HEADER_LEN1);
    SameIndicator(TwoImages(), t);
    SameIndicator(t, t[..607]);
    assert LocateImage(t, 1120, 2, 2) == Complete(1120);
    assert LocateImage(t, 608, 1, 2) == Complete(1120);
  }

  lemma BehindAfter513(p: Parser)
    requires Tracks(p, TightStream()[..607])
    ensures var r := Block(p, TightStream()[607..], ALL_WELL);
            r.1 == 0 && r.0.stage == ImageHeader && !Tracks(r.0, TightStream())
  {
    hide Info, ItemPos, FirstItem, Records, IndicatorCount, AllChecked, TightStream, PackStage, HeaderStage, PayloadStage, HeaderAt, Finished;
    var t := TightStream();
    var s, b := t[..607], t[607..];
    TightViews();
    assert s + b == t;
    var q := Append(p, b);
    ResumesSomewhere(p, s, b);
    assert p.Pending() + b == t[96..];
    assert [] + Underway(s, Locate(s), 2, p.bank) == [];
    NothingIsChecked();
    BlockSkipsPack(p, b);
    HeaderRead(q, t, 0, 96, []);
    PayloadEndsLate(HeaderStage(q).0);
    MpInfoIsComplete(p, s);
  }

  /** 512 bytes is the most a block may have: a fresh parser that has taken this stream correctly up to byte 607
      is one header behind after a block of 513 bytes, since it looks for at most one header per block. */
  lemma BlockBoundIsTight(p: Parser)
    requires Fresh(p)
    ensures var t := TightStream();
            var r := Feed(p, [t[..512], t[512..607]], [ALL_WELL, ALL_WELL]);
            var r' := Block(r.0, t[607..], ALL_WELL);
            && r.1 == 0 && Tracks(r.0, t[..607])
            && |t[607..]| == 513 && Locate(t).Complete?
            && r'.1 == 0 && r'.0.stage == ImageHeader && !Tracks(r'.0, t)
  {
    hide Info, IndicatorCount, TightStream, HeaderAt, Finished, Feed, Block, Tracks;
    var t := TightStream();
    var blocks := [t[..512], t[512..607]];
    TightViews();
    assert Concat(blocks[..1]) == Concat(blocks[..0]) + t[..512] == t[..512];
    assert Concat(blocks) == t[..512] + t[512..607] == t[..607];
    FeedTracks(p, blocks, [ALL_WELL, ALL_WELL]);
    BehindAfter513(Feed(p, blocks, [ALL_WELL, ALL_WELL]).0);
  }

  // ---------- the size bound ----------

  predicate SumIsExact(down: nat, off: nat) { U32(down + off) == down + off }

  /** Payload sizes up to 2^32 - 512 are the ones whose 32-bit progress sum cannot wrap. */
  lemma SizeBoundIsExact(size: nat)
    requires size < U32_RANGE
    ensures size <= MAX_SIZE <==>
            forall down: nat, off: nat :: down < size && off <= MAX_BLOCK ==> SumIsExact(down, off)
  {
    if size > MAX_SIZE {
      assert !SumIsExact(MAX_SIZE, MAX_BLOCK);
    }
  }

  lemma NothingIsChecked()
    ensures AllChecked([])
  {
  }

  lemma PayloadEndsLate(p: Parser)
    requires p.Wf() && p.stage == ImagePayload && p.size == 0 && p.off == 512 && p.idx + 1 < p.num
    ensures PayloadStage(p, ALL_WELL).1 && PayloadStage(p, ALL_WELL).0.stage == ImageHeader
  {
  }

  // ---------- from a fresh parser on ----------

  /** A stream of two images that begins with this image header, cut inside it. */
  function HeaderBlocks(h: seq<byte>): seq<seq<byte>>
    requires |h| == MP_HEADER_SIZE
  {
    [TwoImages() + h[..416], h[416..]]
  }

  function Wells(n: nat): (a: seq<Answers>)
    ensures |a| == n
  {
    seq(n, _ => ALL_WELL)
  }

  /** After the first of these blocks: the rest of the buffer is as it was allocated, right behind where the header
      is going to be. */
  predicate AtCut(p: Parser, h: seq<byte>, q: Parser)
    requires |h| == MP_HEADER_SIZE
  {
    && p.Wf() && q.Wf() && q.stage == ImageHeader && q.off == 416 && q.num == 2 && q.idx == 0
    && q.mem == h[..416] + q.mem[416..MP_HEADER_SIZE] + p.mem[MP_HEADER_SIZE..]
  }

  lemma FirstBlockTaken(p: Parser, h: seq<byte>)
    requires Fresh(p) && |h| == MP_HEADER_SIZE
    ensures var r := Block(p, HeaderBlocks(h)[0], ALL_WELL);
            r.1 == 0 && AtCut(p, h, r.0)
  {
    hide IndicatorCount, SubHeaders, ItemPos;
    var b := HeaderBlocks(h)[0];
    var q := Append(p, b);
    assert q.mem == b + p.mem[MP_HEADER_SIZE..] by { assert p.mem[..0] == []; }
    TwoImagesCount();
    SliceOfPrefix(q.mem, 96, 0, PACK_HEADER_LEN1);
    assert q.mem[..96] == TwoImages();
    SameIndicator(TwoImages(), q.mem);
    assert q.mem[96..512] == h[..416];
  }

  /** The second brings the header together with what lies behind it. */
  lemma HeaderTogether(p: Parser, h: seq<byte>, b: Parser)
    requires |h| == MP_HEADER_SIZE && AtCut(p, h, b)
    ensures var q := Append(b, h[416..]);
            q.mem == h + p.mem[MP_HEADER_SIZE..] && q.stage == ImageHeader && q.off == MP_HEADER_SIZE
  {
    assert h[..416] + h[416..] == h;
    assert b.mem[..416] == h[..416] && b.mem[MP_HEADER_SIZE..] == p.mem[MP_HEADER_SIZE..];
  }

  lemma {:induction false} FeedMore(p: Parser, bs: seq<seq<byte>>, b: seq<byte>)
    requires p.Wf() && Feed(p, bs, Wells(|bs|)).1 == 0
    ensures Feed(p, bs + [b], Wells(|bs| + 1)) == Block(Feed(p, bs, Wells(|bs|)).0, b, ALL_WELL)
  {
    hide Block;
    assert (bs + [b])[..|bs|] == bs && Wells(|bs| + 1)[..|bs|] == Wells(|bs|);
  }

  lemma FeedNone(p: Parser)
    requires p.Wf()
    ensures Feed(p, [], Wells(0)) == (p, 0)
  {
  }

  lemma {:induction false} FeedTwo(p: Parser, b0: seq<byte>, b1: seq<byte>)
    requires p.Wf() && Block(p, b0, ALL_WELL).1 == 0
    ensures Feed(p, [b0, b1], Wells(2)) == Block(Block(p, b0, ALL_WELL).0, b1, ALL_WELL)
  {
    hide Block, Feed;
    FeedNone(p);
    FeedMore(p, [], b0);
    assert [] + [b0] == [b0];
    FeedMore(p, [b0], b1);
    assert [b0] + [b1] == [b0, b1];
  }

  /** What a parser has read once these blocks are in. */
  function Reading(r: (Parser, nat)): Option<(nat, nat)> {
    if r.1 == 0 then Some((r.0.imageId, r.0.size)) else None
  }

  lemma ReadingOfHeader(p: Parser, h: seq<byte>)
    requires Fresh(p) && |h| == MP_HEADER_SIZE
    ensures Reading(Feed(p, HeaderBlocks(h), Wells(2))) == Fields(h + p.mem[MP_HEADER_SIZE..MP_HEADER_SIZE + 6])
  {
    hide Fields, PackStage, HeaderStage, PayloadStage, Feed, Append, Block;
    FirstBlockTaken(p, h);
    FeedTwo(p, HeaderBlocks(h)[0], h[416..]);
    var b := Block(p, HeaderBlocks(h)[0], ALL_WELL).0;
    HeaderTogether(p, h, b);
    var q := Append(b, h[416..]);
    var tail, rest := p.mem[MP_HEADER_SIZE..MP_HEADER_SIZE + 6], p.mem[MP_HEADER_SIZE + 6..];
    assert q.mem == h + tail + rest;
    OutcomeFromTail(q, h, tail, rest);
    BlockSkipsPack(b, h[416..]);
    PayloadKeepsHeader(HeaderStage(q).0);
  }

  lemma PayloadKeepsHeader(p: Parser)
    requires p.Wf()
    ensures var r := PayloadStage(p, ALL_WELL); r.1 && r.0.imageId == p.imageId && r.0.size == p.size
  {
  }

  /** A header that spills is read differently by two fresh parsers that are fed the same blocks, depending on
      what their buffers were allocated with. */
  lemma LeftoversMatter(h: seq<byte>, p: Parser)
    requires |h| == MP_HEADER_SIZE && Info(h).Spills? && Fresh(p)
    ensures exists q: Parser ::
              && Fresh(q) && q == p.(mem := q.mem)
              && Reading(Feed(q, HeaderBlocks(h), Wells(2))) != Reading(Feed(p, HeaderBlocks(h), Wells(2)))
  {
    hide Info, Fields, Feed;
    var t, u := TwoTails(h);
    var a := p.(mem := p.mem[..MP_HEADER_SIZE] + t + p.mem[MP_HEADER_SIZE + 6..]);
    var b := p.(mem := p.mem[..MP_HEADER_SIZE] + u + p.mem[MP_HEADER_SIZE + 6..]);
    assert a.mem[MP_HEADER_SIZE..MP_HEADER_SIZE + 6] == t && b.mem[MP_HEADER_SIZE..MP_HEADER_SIZE + 6] == u;
    ReadingOfHeader(a, h);
    ReadingOfHeader(b, h);
    assert Fresh(a) && Fresh(b);
    assert Reading(Feed(a, HeaderBlocks(h), Wells(2))) != Reading(Feed(p, HeaderBlocks(h), Wells(2)))
        || Reading(Feed(b, HeaderBlocks(h), Wells(2))) != Reading(Feed(p, HeaderBlocks(h), Wells(2)));
  }

  // ---------- payloads too long to count ----------

  /** An image header that announces a payload of 2^32 - 1 bytes. */
  function HugeImage(): (h: seq<byte>)
    ensures |h| == MP_HEADER_SIZE
    ensures h[..12] == [0x12, 0, 2, 0, 0, 4, 0, 4, 0xFF, 0xFF, 0xFF, 0xFF]
  {
    [0x12, 0, 2, 0, 0, 4, 0, 4, 0xFF, 0xFF, 0xFF, 0xFF] + seq(MP_HEADER_SIZE - 12, _ => 0)
  }

  lemma HugeImageInfo()
    ensures Info(HugeImage()) == Found(0, U32_RANGE - 1)
  {
    var h := HugeImage();
    assert forall k :: 0 <= k < 12 ==> h[k] == h[..12][k];
    assert Val(h[0]) == 0x12 && Val(h[1]) == 0 && Val(h[2]) == 2 && Val(h[3]) == 0 && Val(h[4]) == 0;
    assert Val(h[5]) == 4 && Val(h[6]) == 0 && Val(h[7]) == 4;
    assert Val(h[8]) == 255 && Val(h[9]) == 255 && Val(h[10]) == 255 && Val(h[11]) == 255;
    assert LookUp(ITEM_IMAGE_ID, h, 0) == At(0);
    assert Le16(h, 0) == 0x12 && Le16(h, 5) == 4;
    assert LookUp(ITEM_DATA_LEN, h, 0) == LookUp(ITEM_DATA_LEN, h, 5) == At(5);
  }

  function Zeros(): (s: seq<byte>)
    ensures |s| == MAX_BLOCK
  {
    seq(MAX_BLOCK, _ => 0)
  }

  /** That header, and n blocks of 512 payload bytes. */
  function HugeBlocks(n: nat): (bs: seq<seq<byte>>)
    ensures |bs| == n + 2
  {
    if n == 0 then HeaderBlocks(HugeImage()) else HugeBlocks(n - 1) + [Zeros()]
  }

  lemma {:induction false} ConcatMore(bs: seq<seq<byte>>, b: seq<byte>)
    ensures Concat(bs + [b]) == Concat(bs) + b
  {
    assert (bs + [b])[..|bs|] == bs;
  }

  lemma {:induction false} HugeLength(n: nat)
    ensures AtMost512(HugeBlocks(n)) && |Concat(HugeBlocks(n))| == 608 + MAX_BLOCK * n
  {
    hide Concat;
    if n == 0 {
      var h := HugeImage();
      ConcatMore([], TwoImages() + h[..416]);
      ConcatMore([TwoImages() + h[..416]], h[416..]);
      NothingConcatenated();
      assert [] + [TwoImages() + h[..416]] == [TwoImages() + h[..416]];
      assert HugeBlocks(0) == [TwoImages() + h[..416]] + [h[416..]];
    } else {
      HugeLength(n - 1);
      ConcatMore(HugeBlocks(n - 1), Zeros());
    }
  }

  lemma NothingConcatenated()
    ensures Concat([]) == []
  {
  }

  lemma HugeBegins(p: Parser)
    requires Fresh(p)
    ensures var r := Feed(p, HugeBlocks(0), Wells(2));
            r.1 == 0 && r.0.stage == ImagePayload && r.0.off == 0 && r.0.down == 0 && r.0.size == U32_RANGE - 1
  {
    hide Fields, PackStage, HeaderStage, PayloadStage, Feed, Info, Append, Block;
    var h := HugeImage();
    FirstBlockTaken(p, h);
    FeedTwo(p, HeaderBlocks(h)[0], h[416..]);
    var b := Block(p, HeaderBlocks(h)[0], ALL_WELL).0;
    HeaderTogether(p, h, b);
    var q := Append(b, h[416..]);
    BlockSkipsPack(b, h[416..]);
    HugeImageInfo();
    HugeHeaderRead(q, h, p.mem[MP_HEADER_SIZE..]);
    NothingYet(HeaderStage(q).0);
  }

  lemma HugeHeaderRead(q: Parser, h: seq<byte>, tail: seq<byte>)
    requires |h| == MP_HEADER_SIZE && Info(h) == Found(0, U32_RANGE - 1) && q.mem == h + tail
    requires q.Wf() && q.stage == ImageHeader && q.off == MP_HEADER_SIZE
    ensures var r := HeaderStage(q);
            r.1 && r.0.stage == ImagePayload && r.0.off == 0 && r.0.down == 0 && r.0.size == U32_RANGE - 1
  {
    hide Info, ItemPos, FirstItem, Le16, Le32;
    InfoDecides(h, tail);
  }

  lemma NothingYet(p: Parser)
    requires p.Wf() && p.stage == ImagePayload && p.off == 0 && p.down == 0 && 0 < p.size
    ensures var r := PayloadStage(p, ALL_WELL);
            r.1 && r.0.stage == ImagePayload && r.0.off == 0 && r.0.down == 0 && r.0.size == p.size
  {
  }

  lemma PayloadBlock(p: Parser)
    requires p.Wf() && p.stage == ImagePayload && p.off == 0 && p.size == U32_RANGE - 1 && p.down % MAX_BLOCK == 0
    ensures var r := Block(p, Zeros(), ALL_WELL);
            r.1 == 0 && r.0.stage == ImagePayload && r.0.off == 0 && r.0.size == p.size && r.0.down == U32(p.down + MAX_BLOCK)
  {
    hide LastPiece, MoveDown;
  }

  lemma Progress(n: nat)
    requires 0 < n && MAX_BLOCK * n <= U32_RANGE
    ensures U32(MAX_BLOCK * (n - 1)) % MAX_BLOCK == 0
    ensures U32(U32(MAX_BLOCK * (n - 1)) + MAX_BLOCK) == U32(MAX_BLOCK * n)
  {
  }

  /** n blocks into the payload. */
  predicate HugeProgress(r: (Parser, nat), n: nat) {
    r.1 == 0 && r.0.Wf() && r.0.stage == ImagePayload && r.0.off == 0 && r.0.size == U32_RANGE - 1 && r.0.down == U32(MAX_BLOCK * n)
  }

  lemma {:induction false} HugePayload(p: Parser, n: nat)
    requires Fresh(p) && MAX_BLOCK * n <= U32_RANGE
    ensures HugeProgress(Feed(p, HugeBlocks(n), Wells(n + 2)), n)
  {
    hide Block, Feed, U32, Fresh;
    if n == 0 {
      HugeBegins(p);
    } else {
      HugePayload(p, n - 1);
      Progress(n);
      FreshWf(p);
      FeedMore(p, HugeBlocks(n - 1), Zeros());
      PayloadBlock(Feed(p, HugeBlocks(n - 1), Wells(n + 1)).0);
    }
  }

  lemma FreshWf(p: Parser)
    requires Fresh(p)
    ensures p.Wf()
  {
  }

  /** And this is what happens beyond the bound: a fresh parser that has been sent all of a payload of 2^32 - 1
      bytes, and one byte more, is back at its beginning. */
  lemma ProgressWraps(p: Parser, n: nat)
    requires Fresh(p) && MAX_BLOCK * n == U32_RANGE
    ensures AtMost512(HugeBlocks(n)) && |Concat(HugeBlocks(n))| == 96 + MP_HEADER_SIZE + U32_RANGE
    ensures var r := Feed(p, HugeBlocks(n), Wells(n + 2));
            r.1 == 0 && r.0.stage == ImagePayload && r.0.size == U32_RANGE - 1 && r.0.down == 0
  {
    hide Feed, HugeBlocks;
    HugeLength(n);
    HugePayload(p, n);
  }
}
