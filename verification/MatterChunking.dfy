/** However the stream is cut into blocks, the parser of MatterParser agrees with the one-pass reading. */
module MatterChunking {
  import opened Bytes
  import opened MpHeader
  import opened MatterParser
  import PopCount

  const ALL_WELL := Answers(true, true, true)

  // ---------- more stream does not change what has been read ----------

  lemma {:induction false} FinishedAreChecked(s: seq<byte>, pos: nat, idx: nat, num: nat, bank: ActiveBank)
    requires pos <= |s| && idx <= num
    ensures AllChecked(Finished(s, pos, idx, num, bank))
    decreases num - idx
  {
    hide Info;
    var body := pos + MP_HEADER_SIZE;
    if idx < num && body <= |s| && HeaderAt(s, pos).Found? && HeaderAt(s, pos).size <= MAX_SIZE &&
       body + HeaderAt(s, pos).size <= |s| {
      FinishedAreChecked(s, body + HeaderAt(s, pos).size, idx + 1, num, bank);
    }
  }

  ghost predicate Resumes(s: seq<byte>, b: seq<byte>, pos: nat, idx: nat, num: nat, bank: ActiveBank, idx': nat, pos': nat)
    requires pos <= |s| && idx <= num
  {
    && idx' < num && pos' <= |s|
    && LocateImage(s + b, pos, idx, num) == LocateImage(s + b, pos', idx', num)
    && Finished(s + b, pos, idx, num, bank) == Finished(s, pos, idx, num, bank) + Finished(s + b, pos', idx', num, bank)
  }

  /** The payload of the header at pos is complete in s. */
  predicate WholeImage(s: seq<byte>, pos: nat) {
    && pos + MP_HEADER_SIZE <= |s|
    && HeaderAt(s, pos).Found?
    && HeaderAt(s, pos).size <= MAX_SIZE
    && pos + MP_HEADER_SIZE + HeaderAt(s, pos).size <= |s|
  }

  function ImageEnd(s: seq<byte>, pos: nat): nat
    requires WholeImage(s, pos)
  {
    pos + MP_HEADER_SIZE + HeaderAt(s, pos).size
  }

  /** A complete image is passed over in the same way in every stream that begins like s. */
  lemma PassImage(s: seq<byte>, t: seq<byte>, pos: nat, idx: nat, num: nat, bank: ActiveBank)
    requires s <= t && idx < num && WholeImage(s, pos)
    ensures LocateImage(t, pos, idx, num) == LocateImage(t, ImageEnd(s, pos), idx + 1, num)
    ensures Finished(t, pos, idx, num, bank) ==
            One(bank, num, idx, Record(HeaderAt(s, pos).imageId, s[pos + MP_HEADER_SIZE..ImageEnd(s, pos)], true)) +
            Finished(t, ImageEnd(s, pos), idx + 1, num, bank)
  {
    hide Info;
    assert t[pos..pos + MP_HEADER_SIZE] == s[pos..pos + MP_HEADER_SIZE];
    assert t[pos + MP_HEADER_SIZE..ImageEnd(s, pos)] == s[pos + MP_HEADER_SIZE..ImageEnd(s, pos)];
  }

  /** What the reading of s + b is, given where the reading of s stopped. */
  ghost predicate Extends(s: seq<byte>, b: seq<byte>, pos: nat, idx: nat, num: nat, bank: ActiveBank, v: View)
    requires pos <= |s| && idx <= num
  {
    match v
    case AwaitHeader(i, p) => Resumes(s, b, pos, idx, num, bank, i, p)
    case InPayload(i, p, imageId, size) =>
      && MP_HEADER_SIZE <= p <= |s| < p + size && size <= MAX_SIZE
      && HeaderAt(s + b, p - MP_HEADER_SIZE) == Found(imageId, size)
      && Resumes(s, b, pos, idx, num, bank, i, p - MP_HEADER_SIZE)
    case v =>
      && LocateImage(s + b, pos, idx, num) == v
      && (v.Complete? ==> v.pos <= |s| && Finished(s + b, pos, idx, num, bank) == Finished(s, pos, idx, num, bank))
  }

  lemma ExtendsHere(s: seq<byte>, b: seq<byte>, pos: nat, idx: nat, num: nat, bank: ActiveBank)
    requires pos <= |s| && idx <= num && (idx == num || !WholeImage(s, pos))
    ensures Extends(s, b, pos, idx, num, bank, LocateImage(s, pos, idx, num))
  {
    hide Info;
    if idx < num {
      assert Finished(s, pos, idx, num, bank) == [];
      assert [] + Finished(s + b, pos, idx, num, bank) == Finished(s + b, pos, idx, num, bank);
      if pos + MP_HEADER_SIZE <= |s| {
        assert (s + b)[pos..pos + MP_HEADER_SIZE] == s[pos..pos + MP_HEADER_SIZE];
      }
    }
  }

  lemma {:induction false} LocateExtends(s: seq<byte>, b: seq<byte>, pos: nat, idx: nat, num: nat, bank: ActiveBank)
    requires pos <= |s| && idx <= num
    ensures Extends(s, b, pos, idx, num, bank, LocateImage(s, pos, idx, num))
    decreases num - idx
  {
    hide HeaderAt, LocateImage, Finished, WholeImage;
    if idx == num || !WholeImage(s, pos) {
      ExtendsHere(s, b, pos, idx, num, bank);
    } else {
      var next := ImageEnd(s, pos);
      assert next <= |s| by { ImageEndInside(s, pos); }
      PassImage(s, s, pos, idx, num, bank);
      PassImage(s, s + b, pos, idx, num, bank);
      LocateExtends(s, b, next, idx + 1, num, bank);
    }
  }

  lemma ImageEndInside(s: seq<byte>, pos: nat)
    requires WholeImage(s, pos)
    ensures ImageEnd(s, pos) <= |s|
  {
  }

  // ---------- one stage at a time ----------

  ghost predicate AtHeader(p: Parser, s: seq<byte>, idx: nat, pos: nat, before: seq<Record>) {
    && p.Wf()
    && p.stage == ImageHeader && p.idx == idx
    && pos <= |s| && p.Pending() == s[pos..]
    && AllChecked(before) && Records(p.log) == Some(before)
  }

  /** In the payload that starts at pos; started says that a write for it has been made. */
  ghost predicate AtPayload(p: Parser, s: seq<byte>, idx: nat, pos: nat, imageId: nat, size: nat, before: seq<Record>, started: bool) {
    && p.Wf()
    && p.stage == ImagePayload && p.idx == idx && p.imageId == imageId && p.size == size <= MAX_SIZE
    && p.valid == Selected(p.bank, p.num, idx)
    && (!started ==> p.down == 0)
    && pos + p.down <= |s| && p.Pending() == s[pos + p.down..]
    && AllChecked(before)
    && Records(p.log) == Some(before + if started then One(p.bank, p.num, idx, Record(imageId, s[pos..pos + p.down], false)) else [])
  }

  ghost predicate SameTask(p: Parser, q: Parser) {
    p.num == q.num && p.bank == q.bank && p.subHeaders == q.subHeaders
  }

  lemma HeaderRead(p: Parser, s: seq<byte>, idx: nat, pos: nat, before: seq<Record>)
    requires AtHeader(p, s, idx, pos, before) && pos + MP_HEADER_SIZE <= |s|
    ensures match HeaderAt(s, pos)
            case Found(imageId, size) =>
              var r := HeaderStage(p);
              && r.1 && SameTask(p, r.0) && r.0.off == p.off - MP_HEADER_SIZE
              && (size <= MAX_SIZE ==> AtPayload(r.0, s, idx, pos + MP_HEADER_SIZE, imageId, size, before, false))
            case Missing => !HeaderStage(p).1
            case Spills => true
  {
    hide Info, ItemPos, FirstItem, Records;
    var h, tail := p.mem[..MP_HEADER_SIZE], p.mem[MP_HEADER_SIZE..];
    assert p.mem == h + tail;
    assert p.off == |s| - pos >= MP_HEADER_SIZE;
    assert h == p.Pending()[..MP_HEADER_SIZE] == s[pos..pos + MP_HEADER_SIZE];
    InfoDecides(h, tail);
    if HeaderAt(s, pos).Found? {
      var q := HeaderStage(p).0;
      assert q.Pending() == p.mem[MP_HEADER_SIZE..p.off] == p.Pending()[MP_HEADER_SIZE..] == s[pos + MP_HEADER_SIZE..];
      assert before + [] == before;
    }
  }

  lemma LastIsChecked(rs: seq<Record>)
    requires AllChecked(rs)
    ensures rs != [] ==> rs[|rs| - 1].checked
  {
  }

  lemma {:induction false} RecordsWrite(log: seq<StoreOp>, before: seq<Record>, started: bool, begun: Record, offset: nat, data: seq<byte>)
    requires AllChecked(before) && !begun.checked && offset == |begun.bytes| && (started || offset == 0)
    requires Records(log) == Some(before + if started then [begun] else [])
    ensures Records(log + [Write(begun.imageId, offset, data)]) == Some(before + [begun.(bytes := begun.bytes + data)])
  {
    hide Records, AllChecked;
    RecordsAdd(log, Write(begun.imageId, offset, data));
    LastIsChecked(before);
    var rs := before + if started then [begun] else [];
    if started {
      assert rs[..|rs| - 1] == before;
    } else {
      assert rs == before;
      assert begun.bytes == [] && [] + data == data;
    }
  }

  lemma {:induction false} RecordsCheck(log: seq<StoreOp>, before: seq<Record>, r: Record)
    requires !r.checked && Records(log) == Some(before + [r])
    ensures Records(log + [Checksum(r.imageId)]) == Some(before + [r.(checked := true)])
  {
    hide Records;
    RecordsAdd(log, Checksum(r.imageId));
    assert (before + [r])[..|before|] == before;
  }

  /** The end of the payload is not in the buffer yet: everything is written, nothing is left. */
  lemma PayloadContinues(p: Parser, s: seq<byte>, idx: nat, pos: nat, imageId: nat, size: nat, before: seq<Record>, started: bool)
    requires AtPayload(p, s, idx, pos, imageId, size, before, started)
    requires p.off <= MAX_BLOCK && |s| < pos + size
    ensures var r := PayloadStage(p, ALL_WELL);
            && r.1 && SameTask(p, r.0) && InStage(r.0, s, InPayload(idx, pos, imageId, size))
            && Records(r.0.log) == Some(before + One(p.bank, p.num, idx, Record(imageId, s[pos..], false)))
  {
    hide Records, AllChecked;
    assert p.off == |s| - pos - p.down;
    var begun := Record(imageId, s[pos..pos + p.down], false);
    JoinSlices(s, pos, pos + p.down, |s|);
    assert s[pos + p.down..|s|] == s[pos + p.down..] && s[pos..|s|] == s[pos..];
    if p.valid {
      RecordsWrite(p.log, before, started, begun, p.down, p.Pending());
    }
    assert before + [] == before;
  }

  /** The end of the payload is in the buffer: what follows it is kept, and the parser moves on. */
  lemma PayloadEndsInStage(p: Parser, s: seq<byte>, idx: nat, pos: nat, size: nat)
    requires p.Wf() && p.stage == ImagePayload && p.idx == idx && p.size == size <= MAX_SIZE
    requires pos + p.down <= |s| && p.Pending() == s[pos + p.down..]
    requires p.off < MAX_BLOCK || (p.off == MAX_BLOCK && p.down < size)
    requires pos + size <= |s|
    ensures var r := PayloadStage(p, ALL_WELL);
            && r.1 && SameTask(p, r.0) && r.0.Pending() == s[pos + size..] && r.0.off < MP_HEADER_SIZE
            && r.0.idx == idx + 1 && r.0.stage == (if idx + 1 < p.num then ImageHeader else MpInfo)
  {
    hide MoveDown;
    assert p.off == |s| - pos - p.down;
    assert LastPiece(p) == size - p.down;
    SliceOfPrefix(p.mem, p.off, size - p.down, p.off);
  }

  /** And the rest of the payload is written and checked. */
  lemma PayloadEndsInLog(p: Parser, s: seq<byte>, idx: nat, pos: nat, imageId: nat, size: nat, before: seq<Record>, started: bool)
    requires AtPayload(p, s, idx, pos, imageId, size, before, started) && pos + size <= |s|
    requires p.off < MAX_BLOCK || (p.off == MAX_BLOCK && p.down < size)
    ensures Records(PayloadStage(p, ALL_WELL).0.log) ==
            Some(before + One(p.bank, p.num, idx, Record(imageId, s[pos..pos + size], true)))
  {
    hide Records, AllChecked, MoveDown;
    assert p.off == |s| - pos - p.down;
    assert LastPiece(p) == size - p.down;
    var last := size - p.down;
    var begun := Record(imageId, s[pos..pos + p.down], false);
    var whole := Record(imageId, s[pos..pos + size], false);
    assert p.mem[..last] == p.Pending()[..last] == s[pos + p.down..][..last] == s[pos + p.down..pos + size];
    JoinSlices(s, pos, pos + p.down, pos + size);
    if p.valid {
      RecordsWrite(p.log, before, started, begun, p.down, p.mem[..last]);
      RecordsCheck(p.log + [Write(imageId, p.down, p.mem[..last])], before, whole);
    }
    assert before + [] == before;
  }

  // ---------- one block ----------

  /** The stages of a block that follow the pack header. */
  function LaterStages(p: Parser, ans: Answers): (Parser, nat)
    requires p.Wf()
  {
    var header := HeaderStage(p);
    if !header.1 then (header.0, 3)
    else
      var payload := PayloadStage(header.0, ans);
      (payload.0, if payload.1 then 0 else 4)
  }

  /** What the later stages must have reached when the reading resumed at pos ends in v. */
  ghost predicate Reached(r: (Parser, nat), p: Parser, s: seq<byte>, idx: nat, pos: nat, v: View, before: seq<Record>)
    requires pos <= |s| && idx <= p.num
  {
    if v.BadHeader? then r.1 == 3
    else
      && r.1 == 0 && SameTask(p, r.0) && r.0.Wf()
      && InStage(r.0, s, v)
      && Records(r.0.log) == Some(before + (Finished(s, pos, idx, p.num, p.bank) + Underway(s, v, p.num, p.bank)))
  }

  /** With less than a header left, the reading stops at the next image boundary. */
  lemma StopsAtBoundary(s: seq<byte>, pos: nat, idx: nat, num: nat, bank: ActiveBank)
    requires pos <= |s| < pos + MP_HEADER_SIZE && idx <= num
    ensures LocateImage(s, pos, idx, num) == if idx == num then Complete(pos) else AwaitHeader(idx, pos)
    ensures Finished(s, pos, idx, num, bank) == []
  {
  }

  /** The payload stage alone, from a payload under way that goes on... */
  lemma PayloadReachesOn(p: Parser, s: seq<byte>, idx: nat, pos: nat, imageId: nat, size: nat, before: seq<Record>, started: bool)
    requires AtPayload(p, s, idx, pos, imageId, size, before, started) && p.off <= MAX_BLOCK && |s| < pos + size
    requires pos >= MP_HEADER_SIZE && HeaderAt(s, pos - MP_HEADER_SIZE) == Found(imageId, size)
    ensures var v := LocateImage(s, pos - MP_HEADER_SIZE, idx, p.num);
            Reached(LaterStages(p, ALL_WELL), p, s, idx, pos - MP_HEADER_SIZE, v, before)
  {
    hide Info, Records, ItemPos, FirstItem, AllChecked, PayloadStage;
    var header := pos - MP_HEADER_SIZE;
    var v := LocateImage(s, header, idx, p.num);
    assert HeaderStage(p) == (p, true);
    PayloadContinues(p, s, idx, pos, imageId, size, before, started);
    assert v == InPayload(idx, pos, imageId, size);
    assert Finished(s, header, idx, p.num, p.bank) == [];
    assert [] + Underway(s, v, p.num, p.bank) == Underway(s, v, p.num, p.bank);
  }

  /** ...or ends. */
  lemma PayloadReachesEnd(p: Parser, s: seq<byte>, idx: nat, pos: nat, imageId: nat, size: nat, before: seq<Record>, started: bool)
    requires AtPayload(p, s, idx, pos, imageId, size, before, started) && pos + size <= |s|
    requires p.off < MAX_BLOCK || (p.off == MAX_BLOCK && p.down < size)
    requires pos >= MP_HEADER_SIZE && HeaderAt(s, pos - MP_HEADER_SIZE) == Found(imageId, size)
    ensures var v := LocateImage(s, pos - MP_HEADER_SIZE, idx, p.num);
            Reached(LaterStages(p, ALL_WELL), p, s, idx, pos - MP_HEADER_SIZE, v, before)
  {
    hide Info, Records, ItemPos, FirstItem, AllChecked, PayloadStage, HeaderAt;
    var header := pos - MP_HEADER_SIZE;
    var v := LocateImage(s, header, idx, p.num);
    assert HeaderStage(p) == (p, true);
    PayloadEndsInStage(p, s, idx, pos, size);
    PayloadEndsInLog(p, s, idx, pos, imageId, size, before, started);
    var one := One(p.bank, p.num, idx, Record(imageId, s[pos..pos + size], true));
    assert WholeImage(s, header) && ImageEnd(s, header) == pos + size;
    PassImage(s, s, header, idx, p.num, p.bank);
    StopsAtBoundary(s, pos + size, idx + 1, p.num, p.bank);
    assert one + [] == one;
    assert v == LocateImage(s, pos + size, idx + 1, p.num);
    assert Underway(s, v, p.num, p.bank) == [];
    SuffixSlice(s, pos + size, |s| - pos - size);
  }

  lemma SuffixSlice(s: seq<byte>, from: nat, n: nat)
    requires from + n == |s|
    ensures s[from..from + n] == s[from..]
  {
  }

  lemma PayloadReaches(p: Parser, s: seq<byte>, idx: nat, pos: nat, imageId: nat, size: nat, before: seq<Record>, started: bool)
    requires AtPayload(p, s, idx, pos, imageId, size, before, started)
    requires p.off < MAX_BLOCK || (p.off == MAX_BLOCK && p.down < size)
    requires pos >= MP_HEADER_SIZE && HeaderAt(s, pos - MP_HEADER_SIZE) == Found(imageId, size)
    ensures var v := LocateImage(s, pos - MP_HEADER_SIZE, idx, p.num);
            Reached(LaterStages(p, ALL_WELL), p, s, idx, pos - MP_HEADER_SIZE, v, before)
  {
    hide Info, Records, AllChecked, LaterStages, LocateImage, Reached;
    if |s| < pos + size {
      PayloadReachesOn(p, s, idx, pos, imageId, size, before, started);
    } else {
      PayloadReachesEnd(p, s, idx, pos, imageId, size, before, started);
    }
  }

  /** Both stages, from a header that is not complete... */
  lemma HeaderWaits(p: Parser, s: seq<byte>, idx: nat, pos: nat, before: seq<Record>)
    requires AtHeader(p, s, idx, pos, before) && |s| < pos + MP_HEADER_SIZE
    ensures var v := LocateImage(s, pos, idx, p.num);
            Reached(LaterStages(p, ALL_WELL), p, s, idx, pos, v, before)
  {
    hide Info, Records, ItemPos, FirstItem, AllChecked, LocateImage, Finished;
    StopsAtBoundary(s, pos, idx, p.num, p.bank);
    assert before + ([] + []) == before;
  }

  /** ...or from one that is. */
  lemma HeaderReaches(p: Parser, s: seq<byte>, idx: nat, pos: nat, before: seq<Record>)
    requires AtHeader(p, s, idx, pos, before) && p.off < MP_HEADER_SIZE + MAX_BLOCK
    requires !LocateImage(s, pos, idx, p.num).Unspecified?
    ensures var v := LocateImage(s, pos, idx, p.num);
            Reached(LaterStages(p, ALL_WELL), p, s, idx, pos, v, before)
  {
    hide Info, Records, AllChecked, Finished, HeaderStage, PayloadStage, InStage;
    if |s| < pos + MP_HEADER_SIZE {
      HeaderWaits(p, s, idx, pos, before);
    } else {
      HeaderRead(p, s, idx, pos, before);
      if HeaderAt(s, pos).Found? {
        var q := HeaderStage(p).0;
        PayloadReaches(q, s, idx, pos + MP_HEADER_SIZE, HeaderAt(s, pos).imageId, HeaderAt(s, pos).size, before, false);
        NoHeaderStage(q);
      }
    }
  }

  lemma NoHeaderStage(p: Parser)
    requires p.Wf() && p.stage != ImageHeader
    ensures HeaderStage(p) == (p, true)
  {
  }

  function FirstImagePos(num: nat): nat { PACK_HEADER_LEN1 + 12 * num }

  /** The uint8_t header length is exact for up to 15 sub-images, and for no other number of them. */
  lemma PackHeaderLength(num: nat)
    requires num < U8_RANGE
    ensures U8(FirstImagePos(num)) == FirstImagePos(num) <==> num <= MAX_IMAGES
  {
  }

  lemma SameIndicator(s: seq<byte>, t: seq<byte>)
    requires PACK_HEADER_LEN1 <= |s| && PACK_HEADER_LEN1 <= |t| && s[..PACK_HEADER_LEN1] == t[..PACK_HEADER_LEN1]
    ensures IndicatorCount(s) == IndicatorCount(t)
  {
    assert s[INDICATOR_POS..PACK_HEADER_LEN1] == s[..PACK_HEADER_LEN1][INDICATOR_POS..];
    assert t[INDICATOR_POS..PACK_HEADER_LEN1] == t[..PACK_HEADER_LEN1][INDICATOR_POS..];
  }

  ghost predicate AwaitingPack(p: Parser, s: seq<byte>) {
    && p.Wf() && p.stage == PackHeader && p.Pending() == s && p.log == []
  }

  ghost predicate PackOutcome(r: (Parser, bool), p: Parser, s: seq<byte>) {
    match Locate(s)
    case AwaitPack =>
      r.1 && AwaitingPack(r.0, s) && r.0.bank == p.bank &&
      r.0.num == if |s| < PACK_HEADER_LEN1 then p.num else IndicatorCount(s)
    case NoImages => !r.1
    case _ =>
      && r.1 && r.0.num == IndicatorCount(s) && 0 < r.0.num <= MAX_IMAGES && r.0.bank == p.bank
      && FirstImagePos(r.0.num) <= |s|
      && r.0.subHeaders == s[PACK_HEADER_LEN1..FirstImagePos(r.0.num)]
      && r.0.off == p.off - FirstImagePos(r.0.num)
      && AtHeader(r.0, s, 0, FirstImagePos(r.0.num), [])
  }

  /** The pack header stage on a buffer that holds the whole stream s received so far. */
  lemma PackReaches(p: Parser, s: seq<byte>)
    requires AwaitingPack(p, s)
    requires p.num == 0 || (PACK_HEADER_LEN1 <= |s| && p.num == IndicatorCount(s))
    requires !Locate(s).Unspecified?
    ensures PackOutcome(PackStage(p, ALL_WELL), p, s)
  {
    hide Info, IndicatorCount, LocateImage;
    if |s| >= PACK_HEADER_LEN1 {
      assert p.mem[..PACK_HEADER_LEN1] == p.Pending()[..PACK_HEADER_LEN1];
      SameIndicator(p.mem, s);
      var num := IndicatorCount(s);
      PackHeaderLength(U8(num));
      if 0 < num <= MAX_IMAGES && FirstImagePos(num) <= |s| {
        LocateImageAnswers(s, FirstImagePos(num), 0, num);
        SliceOfPrefix(p.mem, p.off, PACK_HEADER_LEN1, FirstImagePos(num));
        SliceOfPrefix(p.mem, p.off, FirstImagePos(num), p.off);
      }
    }
  }

  /** What a block must come to when all received so far is s. */
  ghost predicate BlockOutcome(r: (Parser, nat), s: seq<byte>, bank: ActiveBank) {
    match Locate(s)
    case NoImages => r.1 == 2
    case BadHeader(_) => r.1 == 3
    case _ => r.1 == 0 && Tracks(r.0, s) && r.0.bank == bank
  }

  lemma ReachedTracks(r: (Parser, nat), p: Parser, s: seq<byte>, t: seq<byte>, b: seq<byte>, idx: nat, pos: nat)
    requires t == s + b
    requires FirstImagePos(p.num) <= |s| && 0 < p.num <= MAX_IMAGES && p.num == IndicatorCount(t)
    requires p.subHeaders == t[PACK_HEADER_LEN1..FirstImagePos(p.num)]
    requires Locate(t) == LocateImage(t, FirstImagePos(p.num), 0, p.num)
    requires Resumes(s, b, FirstImagePos(p.num), 0, p.num, p.bank, idx, pos)
    requires Reached(r, p, t, idx, pos, LocateImage(t, pos, idx, p.num), Finished(s, FirstImagePos(p.num), 0, p.num, p.bank))
    requires !Locate(t).NoImages? && !Locate(t).Unspecified? && !Locate(t).AwaitPack?
    ensures BlockOutcome(r, t, p.bank)
  {
    hide Info, Records, IndicatorCount, Finished, LocateImage, Locate, InStage, Underway;
    var before, v := Finished(s, FirstImagePos(p.num), 0, p.num, p.bank), Locate(t);
    ThreeParts(before, Finished(t, pos, idx, p.num, p.bank), Underway(t, v, p.num, p.bank));
  }

  lemma ThreeParts(a: seq<Record>, b: seq<Record>, c: seq<Record>)
    ensures a + (b + c) == (a + b) + c
  {
  }

  lemma LocateImageAnswers(s: seq<byte>, pos: nat, idx: nat, num: nat)
    requires pos <= |s| && idx <= num
    ensures !LocateImage(s, pos, idx, num).NoImages? && !LocateImage(s, pos, idx, num).AwaitPack?
    decreases num - idx
  {
    hide Info;
  }

  lemma BlockSkipsPack(p: Parser, b: seq<byte>)
    requires p.Wf() && p.off + |b| <= BUF_SIZE && (p.stage == ImageHeader || p.stage == ImagePayload)
    ensures Block(p, b, ALL_WELL) == LaterStages(Append(p, b), ALL_WELL)
  {
    hide HeaderStage, PayloadStage;
  }

  lemma BlockFromPack(p: Parser, s: seq<byte>, b: seq<byte>)
    requires Tracks(p, s) && |b| <= MAX_BLOCK && !Locate(s + b).Unspecified? && Locate(s).AwaitPack?
    ensures BlockOutcome(Block(p, b, ALL_WELL), s + b, p.bank)
  {
    hide Info, Records, ItemPos, FirstItem, IndicatorCount, Finished, LocateImage, PackStage, HeaderStage, PayloadStage;
    ShortPackHeader(s);
    var t, q := s + b, Append(p, b);
    if |s| >= PACK_HEADER_LEN1 {
      SameIndicator(s, t);
    }
    PackReaches(q, t);
    var r := PackStage(q, ALL_WELL);
    if Locate(t).AwaitPack? {
      assert HeaderStage(r.0) == (r.0, true) && PayloadStage(r.0, ALL_WELL) == (r.0, true) by {
        LaterStagesIdle(r.0);
      }
    } else if !Locate(t).NoImages? {
      var first := FirstImagePos(r.0.num);
      HeaderReaches(r.0, t, 0, first, []);
      assert t + [] == t;
      EmptyFinished(t, first, 0, r.0.num, p.bank);
      LocateImageAnswers(t, first, 0, r.0.num);
      var v := Locate(t);
      assert [] + (Finished(t, first, 0, r.0.num, p.bank) + Underway(t, v, r.0.num, p.bank)) ==
             Finished(t, first, 0, r.0.num, p.bank) + Underway(t, v, r.0.num, p.bank);
    }
  }

  lemma ShortPackHeader(s: seq<byte>)
    requires Locate(s).AwaitPack?
    ensures |s| < FirstImagePos(MAX_IMAGES)
  {
    if |s| >= FirstImagePos(MAX_IMAGES) && 0 < IndicatorCount(s) <= MAX_IMAGES {
      LocateImageAnswers(s, FirstImagePos(IndicatorCount(s)), 0, IndicatorCount(s));
    }
  }

  lemma LaterStagesIdle(p: Parser)
    requires p.Wf() && p.stage == PackHeader
    ensures HeaderStage(p) == (p, true) && PayloadStage(p, ALL_WELL) == (p, true)
  {
  }

  lemma BlockFromHeader(p: Parser, s: seq<byte>, b: seq<byte>, idx: nat, pos: nat)
    requires Tracks(p, s) && |b| <= MAX_BLOCK && !Locate(s + b).Unspecified? && Locate(s) == AwaitHeader(idx, pos)
    ensures BlockOutcome(Block(p, b, ALL_WELL), s + b, p.bank)
  {
    hide Info, Records, ItemPos, FirstItem, IndicatorCount, Finished, LocateImage, PackStage, HeaderStage, PayloadStage, Reached;
    var t, q, first := s + b, Append(p, b), FirstImagePos(p.num);
    ResumesSomewhere(p, s, b);
    assert p.Pending() + b == t[pos..];
    var before := Finished(s, first, 0, p.num, p.bank);
    assert before + [] == before;
    FinishedAreChecked(s, first, 0, p.num, p.bank);
    BlockSkipsPack(p, b);
    HeaderReaches(q, t, idx, pos, before);
    ReachedTracks(LaterStages(q, ALL_WELL), q, s, t, b, idx, pos);
  }

  lemma BlockFromPayload(p: Parser, s: seq<byte>, b: seq<byte>, idx: nat, pos: nat, imageId: nat, size: nat)
    requires Tracks(p, s) && |b| <= MAX_BLOCK && !Locate(s + b).Unspecified? && Locate(s) == InPayload(idx, pos, imageId, size)
    ensures BlockOutcome(Block(p, b, ALL_WELL), s + b, p.bank)
  {
    hide Info, Records, ItemPos, FirstItem, IndicatorCount, Finished, LocateImage, PackStage, HeaderStage, PayloadStage, Reached;
    var t, q, first := s + b, Append(p, b), FirstImagePos(p.num);
    ResumesSomewhere(p, s, b);
    assert p.Pending() + b == t[pos + p.down..];
    assert t[pos..pos + p.down] == s[pos..];
    var before := Finished(s, first, 0, p.num, p.bank);
    FinishedAreChecked(s, first, 0, p.num, p.bank);
    BlockSkipsPack(p, b);
    PayloadReaches(q, t, idx, pos, imageId, size, before, true);
    ReachedTracks(LaterStages(q, ALL_WELL), q, s, t, b, idx, pos - MP_HEADER_SIZE);
  }

  /** The facts about s + b that every block behind the pack header starts from. */
  lemma ResumesSomewhere(p: Parser, s: seq<byte>, b: seq<byte>)
    requires Tracks(p, s) && (Locate(s).AwaitHeader? || Locate(s).InPayload? || Locate(s).Complete?)
    ensures 0 < p.num <= MAX_IMAGES && p.num == IndicatorCount(s) == IndicatorCount(s + b) && FirstImagePos(p.num) <= |s|
    ensures p.subHeaders == (s + b)[PACK_HEADER_LEN1..FirstImagePos(p.num)]
    ensures Locate(s) == LocateImage(s, FirstImagePos(p.num), 0, p.num)
    ensures Locate(s + b) == LocateImage(s + b, FirstImagePos(p.num), 0, p.num)
    ensures !Locate(s + b).NoImages? && !Locate(s + b).AwaitPack?
    ensures Extends(s, b, FirstImagePos(p.num), 0, p.num, p.bank, Locate(s))
    ensures Records(p.log) == Some(Finished(s, FirstImagePos(p.num), 0, p.num, p.bank) + Underway(s, Locate(s), p.num, p.bank))
  {
    hide Info, Records, IndicatorCount, Finished, LocateImage, Extends;
    var first := FirstImagePos(p.num);
    SameIndicator(s, s + b);
    LocateExtends(s, b, first, 0, p.num, p.bank);
    LocateImageAnswers(s + b, first, 0, p.num);
    assert (s + b)[PACK_HEADER_LEN1..first] == s[PACK_HEADER_LEN1..first];
  }

  lemma BlockFromComplete(p: Parser, s: seq<byte>, b: seq<byte>)
    requires Tracks(p, s) && Locate(s).Complete?
    ensures BlockOutcome(Block(p, b, ALL_WELL), s + b, p.bank)
  {
    hide Info, Records, ItemPos, FirstItem, IndicatorCount, Finished, LocateImage, PackStage, HeaderStage, PayloadStage;
    ResumesSomewhere(p, s, b);
    var pos := Locate(s).pos;
    assert (s + b)[pos..pos + p.off] == s[pos..pos + p.off];
  }

  lemma EmptyFinished(t: seq<byte>, pos: nat, idx: nat, num: nat, bank: ActiveBank)
    requires pos <= |t| && idx <= num
    ensures [] + Finished(t, pos, idx, num, bank) == Finished(t, pos, idx, num, bank)
  {
  }

  /** One block of at most 512 bytes, in every stage: the parser again agrees with the one-pass reading of
      all that has been received, or reports the same defect. */
  lemma BlockTracks(p: Parser, s: seq<byte>, b: seq<byte>)
    requires Tracks(p, s) && |b| <= MAX_BLOCK && !Locate(s + b).Unspecified?
    ensures BlockOutcome(Block(p, b, ALL_WELL), s + b, p.bank)
  {
    hide BlockOutcome, Block;
    match Locate(s)
    case AwaitPack => BlockFromPack(p, s, b);
    case AwaitHeader(idx, pos) => BlockFromHeader(p, s, b, idx, pos);
    case InPayload(idx, pos, imageId, size) => BlockFromPayload(p, s, b, idx, pos, imageId, size);
    case Complete(_) => BlockFromComplete(p, s, b);
  }
}
