/** What the stream parser of applications/matter_common/matter_ota.c computes, block by block, and the
    one-pass reading of the same stream it is compared with. */
module MatterParser {
  import opened Bytes
  import opened MpHeader
  import PopCount

  const BUF_SIZE := 2048
  const PACK_HEADER_LEN1 := 72
  const INDICATOR_POS := 40
  const MAX_BLOCK := 512
  const MAX_IMAGES := 15

  datatype ActiveBank = Bank0 | Bank1

  datatype Stage = PackHeader | ImageHeader | ImagePayload | MpInfo

  /** A call into the flash layer that worked. */
  datatype StoreOp = Write(imageId: nat, offset: nat, data: seq<byte>) | Checksum(imageId: nat) | MakeReady(addr: nat)

  /** The fields of matter_ota_db; mem is the whole buffer, of which the first off bytes are in use. */
  datatype Parser = Parser(mem: seq<byte>, off: nat, hasTable: bool, subHeaders: seq<byte>, num: nat, idx: nat,
                           down: nat, imageId: nat, size: nat, valid: bool, bank: ActiveBank, stage: Stage,
                           log: seq<StoreOp>)
  {
    predicate Wf() {
      && |mem| == BUF_SIZE
      && off <= BUF_SIZE
      && num < U8_RANGE
      && (stage == ImageHeader || stage == ImagePayload ==> idx < num)
      && (stage == ImagePayload ==> down <= size < U32_RANGE)
    }

    function Pending(): seq<byte>
      requires Wf()
    {
      mem[..off]
    }
  }

  /** What the calls made while handling one block answer. */
  datatype Answers = Answers(mallocOk: bool, writeOk: bool, checksumOk: bool)

  // ---------- the stages ----------

  function MoveDown(mem: seq<byte>, from: nat, n: nat): (r: seq<byte>)
    requires from + n <= |mem|
    ensures |r| == |mem| && r[..n] == mem[from..from + n]
  {
    mem[from..from + n] + mem[n..]
  }

  /** The image addresses in the pack header; for more than 164 images they would lie past the buffer. */
  function SubHeaders(mem: seq<byte>, num: nat): seq<byte>
    requires |mem| == BUF_SIZE
  {
    if PACK_HEADER_LEN1 + 12 * num <= BUF_SIZE then mem[PACK_HEADER_LEN1..PACK_HEADER_LEN1 + 12 * num]
    else mem[PACK_HEADER_LEN1..]
  }

  function IndicatorCount(mem: seq<byte>): nat
    requires PACK_HEADER_LEN1 <= |mem|
  {
    PopCount.SetBits(mem[INDICATOR_POS..PACK_HEADER_LEN1])
  }

  /** rtk_matter_ota_process_pack_header; its length variable is a uint8_t. */
  function PackStage(p: Parser, ans: Answers): (r: (Parser, bool))
    requires p.Wf()
    ensures r.0.Wf()
  {
    if p.stage != PackHeader || p.off < PACK_HEADER_LEN1 then (p, true)
    else
      var num := if p.num == 0 then U8(IndicatorCount(p.mem)) else p.num;
      if num == 0 then (p, false)
      else if !p.hasTable && !ans.mallocOk then (p.(num := num), false)
      else
        var q := p.(num := num, hasTable := true);
        var headerLen := U8(PACK_HEADER_LEN1 + 12 * num);
        if p.off < headerLen then (q, true)
        else
          var left := p.off - headerLen;
          (q.(subHeaders := SubHeaders(p.mem, num), mem := MoveDown(p.mem, headerLen, left), off := left,
              idx := 0, stage := ImageHeader), true)
  }

  /** Sub-image idx belongs to the bank that is not active. */
  predicate Selected(bank: ActiveBank, num: nat, idx: nat) {
    !((bank == Bank0 && idx < num / 2) || (bank == Bank1 && idx >= num / 2))
  }

  /** rtk_matter_ota_process_mp_header */
  function HeaderStage(p: Parser): (r: (Parser, bool))
    requires p.Wf()
    ensures r.0.Wf()
  {
    if p.stage != ImageHeader || p.off < MP_HEADER_SIZE then (p, true)
    else
      var idPos := ItemPos(ITEM_IMAGE_ID, p.mem, 0);
      if idPos == -1 then (p, false)
      else
        var q := p.(imageId := Le16(p.mem, idPos + 3));
        var lenPos := ItemPos(ITEM_DATA_LEN, p.mem, 0);
        if lenPos == -1 then (q, false)
        else
          var left := p.off - MP_HEADER_SIZE;
          (q.(size := Le32(p.mem, lenPos + 3), mem := MoveDown(p.mem, MP_HEADER_SIZE, left), off := left,
              valid := Selected(p.bank, p.num, p.idx), down := 0, stage := ImagePayload), true)
  }

  /** rtk_matter_ota_process_payload; the last piece's length is narrowed to a uint16_t. */
  function PayloadStage(p: Parser, ans: Answers): (r: (Parser, bool))
    requires p.Wf()
    ensures r.0.Wf()
  {
    if p.stage != ImagePayload then (p, true)
    else if U32(p.down + p.off) < p.size then
      if p.valid && !ans.writeOk then (p, false)
      else (p.(log := if p.valid then p.log + [Write(p.imageId, p.down, p.mem[..p.off])] else p.log,
               down := U32(p.down + p.off), off := 0), true)
    else EndPayload(p, ans)
  }

  function EndPayload(p: Parser, ans: Answers): (r: (Parser, bool))
    requires p.Wf() && p.stage == ImagePayload && U32(p.down + p.off) >= p.size
    ensures r.0.Wf()
  {
    var last := LastPiece(p);
    if p.valid && !ans.writeOk then (p, false)
    else EndWritten(p.(log := if p.valid then p.log + [Write(p.imageId, p.down, p.mem[..last])] else p.log), last, ans)
  }

  /** The last piece has been written: check the image and go on to the next. */
  function EndWritten(p: Parser, last: nat, ans: Answers): (r: (Parser, bool))
    requires p.Wf() && p.stage == ImagePayload && last <= p.off
    ensures r.0.Wf()
  {
    if p.valid && !ans.checksumOk then (p, false)
    else (Advanced(p.(log := if p.valid then p.log + [Checksum(p.imageId)] else p.log), last), true)
  }

  function Advanced(p: Parser, last: nat): (q: Parser)
    requires p.Wf() && p.stage == ImagePayload && last <= p.off
    ensures q.Wf()
  {
    var left := p.off - last;
    var next := U8(p.idx + 1);
    p.(down := U32(p.down + last), mem := MoveDown(p.mem, last, left), off := left,
       idx := next, stage := if next < p.num then ImageHeader else MpInfo)
  }

  /** When the payload's end is found, it lies in the buffer: neither the unsigned subtraction nor the
      narrowing to 16 bits loses anything, not even when the 32-bit sum has wrapped before. */
  function LastPiece(p: Parser): (n: nat)
    requires p.Wf() && p.stage == ImagePayload && U32(p.down + p.off) >= p.size
    ensures n == p.size - p.down <= p.off && p.down + p.off < U32_RANGE
  {
    U32(p.size - p.down) % 0x1_0000
  }

  function Append(p: Parser, data: seq<byte>): (q: Parser)
    requires p.Wf() && p.off + |data| <= BUF_SIZE
    ensures q.Wf() && q.Pending() == p.Pending() + data
    ensures q == p.(mem := q.mem, off := p.off + |data|)
  {
    p.(mem := p.mem[..p.off] + data + p.mem[p.off + |data|..], off := p.off + |data|)
  }

  /** rtk_matter_ota_process_block: each stage at most once. The number is the return value. */
  function Block(p: Parser, data: seq<byte>, ans: Answers): (r: (Parser, nat))
    requires p.Wf()
    ensures r.0.Wf()
  {
    if p.stage == MpInfo then (p, 0)
    else if p.off + |data| > BUF_SIZE then (p, 1)
    else
      var pack := PackStage(Append(p, data), ans);
      if !pack.1 then (pack.0, 2)
      else
        var header := HeaderStage(pack.0);
        if !header.1 then (header.0, 3)
        else
          var payload := PayloadStage(header.0, ans);
          (payload.0, if payload.1 then 0 else 4)
  }

  // ---------- the one-pass reading ----------

  /** Where in the stream its end lies. */
  datatype View =
    | AwaitPack
    | AwaitHeader(idx: nat, pos: nat)                              // the next header starts at pos
    | InPayload(idx: nat, pos: nat, imageId: nat, size: nat)       // its payload starts at pos
    | Complete(pos: nat)                                           // the last payload ends at pos
    | NoImages
    | BadHeader(idx: nat)
    | Unspecified                                                  // the code's reading depends on more than the stream

  const MAX_SIZE := U32_RANGE - MAX_BLOCK

  function Locate(s: seq<byte>): View {
    if |s| < PACK_HEADER_LEN1 then AwaitPack
    else
      var num := IndicatorCount(s);
      if num == 0 then NoImages
      else if num > MAX_IMAGES then Unspecified
      else if |s| < PACK_HEADER_LEN1 + 12 * num then AwaitPack
      else LocateImage(s, PACK_HEADER_LEN1 + 12 * num, 0, num)
  }

  function HeaderAt(s: seq<byte>, pos: nat): HeaderInfo
    requires pos + MP_HEADER_SIZE <= |s|
  {
    Info(s[pos..pos + MP_HEADER_SIZE])
  }

  function LocateImage(s: seq<byte>, pos: nat, idx: nat, num: nat): View
    requires pos <= |s| && idx <= num
    decreases num - idx
  {
    var body := pos + MP_HEADER_SIZE;
    if idx == num then Complete(pos)
    else if |s| < body then AwaitHeader(idx, pos)
    else
      match HeaderAt(s, pos)
      case Missing => BadHeader(idx)
      case Spills => Unspecified
      case Found(imageId, size) =>
        if size > MAX_SIZE then Unspecified
        else if |s| < body + size then InPayload(idx, body, imageId, size)
        else LocateImage(s, body + size, idx + 1, num)
  }

  /** What the flash layer has been given of one image. */
  datatype Record = Record(imageId: nat, bytes: seq<byte>, checked: bool)

  function One(bank: ActiveBank, num: nat, idx: nat, r: Record): seq<Record> {
    if Selected(bank, num, idx) then [r] else []
  }

  /** The selected images whose payload is complete. */
  function Finished(s: seq<byte>, pos: nat, idx: nat, num: nat, bank: ActiveBank): seq<Record>
    requires pos <= |s| && idx <= num
    decreases num - idx
  {
    var body := pos + MP_HEADER_SIZE;
    if idx == num || |s| < body then []
    else
      match HeaderAt(s, pos)
      case Missing => []
      case Spills => []
      case Found(imageId, size) =>
        if size > MAX_SIZE || |s| < body + size then []
        else One(bank, num, idx, Record(imageId, s[body..body + size], true)) + Finished(s, body + size, idx + 1, num, bank)
  }

  function Underway(s: seq<byte>, v: View, num: nat, bank: ActiveBank): seq<Record> {
    if v.InPayload? && v.pos <= |s| then One(bank, num, v.idx, Record(v.imageId, s[v.pos..], false)) else []
  }

  /** All the flash layer should have been given of the stream received so far. */
  function Expected(s: seq<byte>, pos: nat, idx: nat, num: nat, bank: ActiveBank): seq<Record>
    requires pos <= |s| && idx <= num
  {
    Finished(s, pos, idx, num, bank) + Underway(s, LocateImage(s, pos, idx, num), num, bank)
  }

  /** Reads a log of writes back as records; None if they leave a gap, overlap, go to another image before
      the checksum of the one begun, check an image that is not the one written, or make one ready. */
  function Records(log: seq<StoreOp>): Option<seq<Record>> {
    if log == [] then Some([])
    else
      var rs := Records(log[..|log| - 1]);
      if rs.None? then None else AddRecord(rs.value, log[|log| - 1])
  }

  function AddRecord(rs: seq<Record>, op: StoreOp): Option<seq<Record>> {
    var open := rs != [] && !rs[|rs| - 1].checked;
    match op
    case Write(imageId, offset, data) =>
      if open then
        var r := rs[|rs| - 1];
        if r.imageId == imageId && offset == |r.bytes| then Some(rs[..|rs| - 1] + [r.(bytes := r.bytes + data)]) else None
      else if offset == 0 then Some(rs + [Record(imageId, data, false)])
      else None
    case Checksum(imageId) =>
      if open && rs[|rs| - 1].imageId == imageId then Some(rs[..|rs| - 1] + [rs[|rs| - 1].(checked := true)])
      else None
    case MakeReady(_) => None
  }

  lemma RecordsAdd(log: seq<StoreOp>, op: StoreOp)
    ensures Records(log + [op]) == if Records(log).None? then None else AddRecord(Records(log).value, op)
  {
    assert (log + [op])[..|log|] == log;
  }

  // ---------- agreement ----------

  /** Every image recorded has been checked. */
  predicate AllChecked(rs: seq<Record>) {
    forall i :: 0 <= i < |rs| ==> rs[i].checked
  }

  /** Parser state p is the one-pass reading of stream s. */
  ghost predicate Tracks(p: Parser, s: seq<byte>) {
    p.Wf() &&
    match Locate(s)
    case AwaitPack =>
      && p.stage == PackHeader
      && p.Pending() == s
      && p.num == (if |s| < PACK_HEADER_LEN1 then 0 else IndicatorCount(s))
      && p.log == []
    case NoImages => false
    case BadHeader(_) => false
    case Unspecified => false
    case v =>
      var num := IndicatorCount(s);
      && p.num == num
      && p.subHeaders == s[PACK_HEADER_LEN1..PACK_HEADER_LEN1 + 12 * num]
      && Records(p.log) == Some(Expected(s, PACK_HEADER_LEN1 + 12 * num, 0, num, p.bank))
      && InStage(p, s, v)
  }

  ghost predicate InStage(p: Parser, s: seq<byte>, v: View)
    requires p.Wf()
  {
    match v
    case AwaitHeader(idx, pos) =>
      p.stage == ImageHeader && p.idx == idx && pos <= |s| && p.Pending() == s[pos..] && p.off < MP_HEADER_SIZE
    case InPayload(idx, pos, imageId, size) =>
      && p.stage == ImagePayload && p.idx == idx && p.imageId == imageId && p.size == size
      && p.valid == Selected(p.bank, p.num, idx)
      && p.off == 0 && pos + p.down == |s| && p.down < size
    case Complete(pos) =>
      p.stage == MpInfo && p.idx == p.num && p.off < MP_HEADER_SIZE && pos + p.off <= |s| && p.Pending() == s[pos..pos + p.off]
    case _ => false
  }
}
