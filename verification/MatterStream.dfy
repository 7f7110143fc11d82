/** The update stream as its producer builds it, from images and their headers, and what the parser makes of it:
    the images that were put in. */
module MatterStream {
  import opened Bytes
  import opened MpHeader
  import opened MatterParser
  import opened MatterChunking
  import opened MatterRuns
  import opened MatterFinalize
  import PopCount

  // ---------- items ----------

  /** One item of a sub-image header. */
  datatype Item = Item(id: nat, value: seq<byte>)
  {
    predicate Valid() { id < 0x1_0000 && |value| < 256 }

    function Encode(): (s: seq<byte>)
      requires Valid()
      ensures |s| == 3 + |value|
    {
      Bytes16(id) + [ByteOf(|value|)] + value
    }
  }

  predicate AllValid(items: seq<Item>) {
    forall i :: 0 <= i < |items| ==> items[i].Valid()
  }

  function EncodeItems(items: seq<Item>): seq<byte>
    requires AllValid(items)
  {
    if items == [] then [] else items[0].Encode() + EncodeItems(items[1..])
  }

  /** Where item k begins. */
  function ItemOffset(items: seq<Item>, k: nat): nat
    requires k <= |items|
  {
    if k == 0 then 0 else 3 + |items[0].value| + ItemOffset(items[1..], k - 1)
  }

  /** Item k is the first with this id. */
  predicate FirstWithId(items: seq<Item>, k: nat, id: nat) {
    k < |items| && items[k].id == id && forall j :: 0 <= j < k ==> items[j].id != id
  }

  lemma {:induction false} ItemInHeader(pre: seq<byte>, it: Item, rest: seq<byte>)
    requires it.Valid() && 0 <= |pre|
    ensures var h := pre + it.Encode() + rest;
            && Le16(h, |pre|) == it.id && Val(h[|pre| + 2]) == |it.value|
            && h[|pre| + 3..|pre| + 3 + |it.value|] == it.value
  {
    hide Le16, Bytes16, ByteOf, Val;
    var h, i := pre + it.Encode() + rest, |pre|;
    assert h[i..i + 2] == Bytes16(it.id);
    Le16Exactly(h, i, it.id);
  }

  lemma {:induction false} FirstWithIdLater(items: seq<Item>, k: nat, id: nat)
    requires 0 < k && FirstWithId(items, k, id)
    ensures FirstWithId(items[1..], k - 1, id) && items[0].id != id && items[1..][k - 1] == items[k]
  {
    assert forall j :: 0 <= j < k - 1 ==> items[1..][j] == items[j + 1];
  }

  /** The scan finds the first item with the id, however the header goes on behind the items. */
  lemma {:induction false} ItemIsFound(pre: seq<byte>, items: seq<Item>, pad: seq<byte>, k: nat, id: nat)
    requires AllValid(items) && FirstWithId(items, k, id) && |pre + EncodeItems(items) + pad| == MP_HEADER_SIZE
    ensures var h := pre + EncodeItems(items) + pad;
            var pos := |pre| + ItemOffset(items, k);
            && LookUp(id, h, |pre|) == At(pos)
            && pos + 3 + |items[k].value| <= MP_HEADER_SIZE
            && h[pos + 3..pos + 3 + |items[k].value|] == items[k].value
    decreases k
  {
    hide Le16, Val, LookUp, FirstWithId;
    FirstItemHere(items, k, id);
    var h, first, rest := pre + EncodeItems(items) + pad, items[0], items[1..];
    Regroup(pre, first.Encode(), EncodeItems(rest), pad);
    ItemInHeader(pre, first, EncodeItems(rest) + pad);
    LookUpStep(id, h, |pre|);
    if k > 0 {
      FirstWithIdLater(items, k, id);
      ItemIsFound(pre + first.Encode(), rest, pad, k - 1, id);
    }
  }

  lemma {:induction false} FirstItemHere(items: seq<Item>, k: nat, id: nat)
    requires FirstWithId(items, k, id)
    ensures k < |items| && (k == 0 <==> items[0].id == id)
  {
  }

  lemma {:induction false} LookUpStep(id: nat, h: seq<byte>, i: nat)
    requires |h| == MP_HEADER_SIZE && i + 3 <= MP_HEADER_SIZE
    ensures LookUp(id, h, i) == if Le16(h, i) == id then At(i) else LookUp(id, h, i + 3 + Val(h[i + 2]))
  {
    hide Le16, Val;
  }

  // ---------- images ----------

  /** An image with its header: any items, among which these two are the first with their ids, and any padding. */
  datatype Image = Image(items: seq<Item>, pad: seq<byte>, idItem: nat, lenItem: nat, imageId: nat, payload: seq<byte>)
  {
    predicate Valid() {
      && AllValid(items) && |EncodeItems(items)| + |pad| == MP_HEADER_SIZE
      && imageId < 0x1_0000 && |payload| <= MAX_SIZE
      && FirstWithId(items, idItem, ITEM_IMAGE_ID) && Bytes16(imageId) <= items[idItem].value
      && FirstWithId(items, lenItem, ITEM_DATA_LEN) && Bytes32(|payload|) <= items[lenItem].value
    }

    function Header(): (h: seq<byte>)
      requires Valid()
      ensures |h| == MP_HEADER_SIZE
    {
      EncodeItems(items) + pad
    }
  }

  lemma {:induction false} FieldAt(h: seq<byte>, at: nat, value: seq<byte>, field: seq<byte>)
    requires field <= value && at + |value| <= |h| && h[at..at + |value|] == value
    ensures h[at..at + |field|] == field
  {
    assert h[at..at + |field|] == h[at..at + |value|][..|field|];
  }

  /** A header built for an id and a payload is read as that id and the payload's size. */
  lemma {:induction false} HeaderIsRead(im: Image)
    requires im.Valid()
    ensures Info(im.Header()) == Found(im.imageId, |im.payload|)
  {
    hide Le16, Le32, Bytes16, Bytes32, LookUp, EncodeItems, ItemOffset;
    var h := im.Header();
    assert [] + EncodeItems(im.items) + im.pad == h;
    ItemIsFound([], im.items, im.pad, im.idItem, ITEM_IMAGE_ID);
    ItemIsFound([], im.items, im.pad, im.lenItem, ITEM_DATA_LEN);
    var id, len := ItemOffset(im.items, im.idItem) + 3, ItemOffset(im.items, im.lenItem) + 3;
    FieldAt(h, id, im.items[im.idItem].value, Bytes16(im.imageId));
    FieldAt(h, len, im.items[im.lenItem].value, Bytes32(|im.payload|));
    Le16Exactly(h, id, im.imageId);
    Le32Exactly(h, len, |im.payload|);
  }

  predicate ValidImages(images: seq<Image>) {
    forall i :: 0 <= i < |images| ==> images[i].Valid()
  }

  function EncodeImages(images: seq<Image>): seq<byte>
    requires ValidImages(images)
  {
    if images == [] then [] else images[0].Header() + images[0].payload + EncodeImages(images[1..])
  }

  // ---------- the whole stream ----------

  /** An entry of the table in the pack header: where the image goes, and two words the parser does not use. */
  datatype Entry = Entry(addr: nat, rest: seq<byte>)
  {
    predicate Valid() { addr < U32_RANGE && |rest| == 8 }

    function Encode(): (s: seq<byte>)
      requires Valid()
      ensures |s| == 12
    {
      Bytes32(addr) + rest
    }
  }

  predicate ValidTable(table: seq<Entry>) {
    forall i :: 0 <= i < |table| ==> table[i].Valid()
  }

  function EncodeTable(table: seq<Entry>): (s: seq<byte>)
    requires ValidTable(table)
    ensures |s| == 12 * |table|
  {
    if table == [] then [] else table[0].Encode() + EncodeTable(table[1..])
  }

  /** What comes before the images: 40 bytes, the indicator with one bit per image, and the table. */
  datatype Pack = Pack(lead: seq<byte>, indicator: seq<byte>, table: seq<Entry>)
  {
    predicate Valid() {
      && |lead| == 40 && |indicator| == 32 && ValidTable(table)
      && PopCount.SetBits(indicator) == |table| && 1 <= |table| <= 15
    }

    function Encode(): (s: seq<byte>)
      requires Valid()
      ensures |s| == 72 + 12 * |table|
    {
      lead + indicator + EncodeTable(table)
    }
  }

  /** part lies at pos in s. */
  predicate Lies(s: seq<byte>, pos: nat, part: seq<byte>) {
    pos + |part| <= |s| && s[pos..pos + |part|] == part
  }

  lemma {:induction false} LiesSplit(s: seq<byte>, pos: nat, a: seq<byte>, b: seq<byte>)
    ensures Lies(s, pos, a + b) <==> Lies(s, pos, a) && Lies(s, pos + |a|, b)
  {
    if pos + |a| + |b| <= |s| {
      JoinSlices(s, pos, pos + |a|, pos + |a| + |b|);
      var u := s[pos..pos + |a + b|];
      assert u[..|a|] == s[pos..pos + |a|] && u[|a|..] == s[pos + |a|..pos + |a| + |b|];
    }
  }

  lemma {:induction false} LiesWhole(s: seq<byte>)
    ensures Lies(s, 0, s)
  {
  }

  /** The bank an image is for: the first half of them for bank 0, the others for bank 1. */
  function BankOfImage(num: nat, i: nat): ActiveBank { if i < num / 2 then Bank0 else Bank1 }

  function IfInactive(im: Image, idx: nat, num: nat, bank: ActiveBank): seq<Record> {
    if BankOfImage(num, idx) != bank then [Record(im.imageId, im.payload, true)] else []
  }

  /** The images that are not for the active bank, with their payloads, from number idx on. */
  function ForInactive(images: seq<Image>, idx: nat, num: nat, bank: ActiveBank): seq<Record> {
    if images == [] then []
    else IfInactive(images[0], idx, num, bank) + ForInactive(images[1..], idx + 1, num, bank)
  }

  /** One image is passed over, its payload going to the flash if it is for the inactive bank. */
  lemma {:induction false} ImageIsPassed(s: seq<byte>, pos: nat, im: Image, idx: nat, num: nat, bank: ActiveBank)
    requires im.Valid() && idx < num && Lies(s, pos, im.Header()) && Lies(s, pos + MP_HEADER_SIZE, im.payload)
    ensures var next := pos + MP_HEADER_SIZE + |im.payload|;
            && LocateImage(s, pos, idx, num) == LocateImage(s, next, idx + 1, num)
            && Finished(s, pos, idx, num, bank) ==
               IfInactive(im, idx, num, bank) + Finished(s, next, idx + 1, num, bank)
  {
    hide LocateImage, Finished, Info;
    HeaderIsRead(im);
    assert WholeImage(s, pos);
    PassImage(s, s, pos, idx, num, bank);
    OneForInactive(bank, num, idx, Record(im.imageId, im.payload, true));
  }

  lemma {:induction false} ImagesLie(s: seq<byte>, pos: nat, images: seq<Image>)
    requires images != [] && ValidImages(images) && Lies(s, pos, EncodeImages(images))
    ensures ValidImages(images[1..]) && images[0].Valid()
    ensures Lies(s, pos, images[0].Header()) && Lies(s, pos + MP_HEADER_SIZE, images[0].payload)
    ensures Lies(s, pos + MP_HEADER_SIZE + |images[0].payload|, EncodeImages(images[1..]))
    ensures |EncodeImages(images)| == MP_HEADER_SIZE + |images[0].payload| + |EncodeImages(images[1..])|
  {
    hide Lies;
    var h, b, rest := images[0].Header(), images[0].payload, EncodeImages(images[1..]);
    LiesSplit(s, pos, h + b, rest);
    LiesSplit(s, pos, h, b);
  }

  lemma {:induction false} ImagesArePassed(s: seq<byte>, pos: nat, images: seq<Image>, idx: nat, num: nat, bank: ActiveBank)
    requires ValidImages(images) && idx + |images| <= num && Lies(s, pos, EncodeImages(images))
    ensures var next := pos + |EncodeImages(images)|;
            && LocateImage(s, pos, idx, num) == LocateImage(s, next, idx + |images|, num)
            && Finished(s, pos, idx, num, bank) == ForInactive(images, idx, num, bank) + Finished(s, next, idx + |images|, num, bank)
    decreases |images|
  {
    hide LocateImage, Finished, IfInactive, EncodeImages;
    if images == [] {
      NothingEncoded();
      assert [] + Finished(s, pos, idx, num, bank) == Finished(s, pos, idx, num, bank);
    } else {
      var im, later := images[0], images[1..];
      ImagesLie(s, pos, images);
      ImageIsPassed(s, pos, im, idx, num, bank);
      ImagesArePassed(s, pos + MP_HEADER_SIZE + |im.payload|, later, idx + 1, num, bank);
      ThreeParts(IfInactive(im, idx, num, bank), ForInactive(later, idx + 1, num, bank),
                 Finished(s, pos + |EncodeImages(images)|, idx + |images|, num, bank));
    }
  }

  lemma {:induction false} NothingEncoded()
    ensures EncodeImages([]) == []
  {
  }

  lemma {:induction false} NoImageLeft(s: seq<byte>, pos: nat, num: nat, bank: ActiveBank)
    requires pos <= |s|
    ensures LocateImage(s, pos, num, num) == Complete(pos) && Finished(s, pos, num, num, bank) == []
  {
  }

  lemma {:induction false} OneForInactive(bank: ActiveBank, num: nat, idx: nat, r: Record)
    ensures One(bank, num, idx, r) == if BankOfImage(num, idx) != bank then [r] else []
  {
  }

  lemma {:induction false} PackIsLocated(s: seq<byte>, pack: Pack)
    requires pack.Valid() && Lies(s, 0, pack.Encode())
    ensures var num := |pack.table|;
            && IndicatorCount(s) == num && FirstImagePos(num) == |pack.Encode()| <= |s|
            && s[PACK_HEADER_LEN1..FirstImagePos(num)] == EncodeTable(pack.table)
            && Locate(s) == LocateImage(s, FirstImagePos(num), 0, num)
  {
    hide LocateImage, Lies, PopCount.SetBits;
    LiesSplit(s, 0, pack.lead + pack.indicator, EncodeTable(pack.table));
    LiesSplit(s, 0, pack.lead, pack.indicator);
    PartsOfPack(s, pack);
  }

  lemma {:induction false} PartsOfPack(s: seq<byte>, pack: Pack)
    requires pack.Valid() && Lies(s, 40, pack.indicator) && Lies(s, 72, EncodeTable(pack.table))
    ensures s[INDICATOR_POS..PACK_HEADER_LEN1] == pack.indicator
    ensures FirstImagePos(|pack.table|) <= |s| && s[PACK_HEADER_LEN1..FirstImagePos(|pack.table|)] == EncodeTable(pack.table)
  {
  }

  /** A stream that was built this way, up to here. */
  predicate Built(s: seq<byte>, pack: Pack, images: seq<Image>, rest: seq<byte>)
    requires pack.Valid() && ValidImages(images)
  {
    s == pack.Encode() + EncodeImages(images) + rest
  }

  lemma {:induction false} BuiltParts(s: seq<byte>, pack: Pack, images: seq<Image>, rest: seq<byte>)
    requires pack.Valid() && ValidImages(images) && Built(s, pack, images, rest)
    ensures var first := |pack.Encode()|;
            && Lies(s, 0, pack.Encode()) && Lies(s, first, EncodeImages(images)) && Lies(s, first + |EncodeImages(images)|, rest)
            && |s| == first + |EncodeImages(images)| + |rest|
  {
    hide Lies, EncodeImages;
    LiesWhole(s);
    LiesSplit(s, 0, pack.Encode() + EncodeImages(images), rest);
    LiesSplit(s, 0, pack.Encode(), EncodeImages(images));
  }

  /** The one-pass reading of a whole stream. */
  lemma {:induction false} StreamIsLocated(s: seq<byte>, pack: Pack, images: seq<Image>, trail: seq<byte>, bank: ActiveBank)
    requires pack.Valid() && ValidImages(images) && |images| == |pack.table| && Built(s, pack, images, trail)
    ensures IndicatorCount(s) == |images| && FirstImagePos(|images|) <= |s|
    ensures Locate(s) == LocateImage(s, FirstImagePos(|images|), 0, |images|) == Complete(|s| - |trail|)
    ensures s[PACK_HEADER_LEN1..FirstImagePos(|images|)] == EncodeTable(pack.table)
    ensures Finished(s, FirstImagePos(|images|), 0, |images|, bank) == ForInactive(images, 0, |images|, bank)
  {
    hide IndicatorCount, LocateImage, Finished, Locate, EncodeImages, ForInactive, Lies, Built;
    BuiltParts(s, pack, images, trail);
    PackIsLocated(s, pack);
    ImagesArePassed(s, |pack.Encode()|, images, 0, |images|, bank);
    NoImageLeft(s, |s| - |trail|, |images|, bank);
    assert ForInactive(images, 0, |images|, bank) + [] == ForInactive(images, 0, |images|, bank);
  }

  /** And of one that ends in the payload of an image. */
  lemma {:induction false} PayloadIsLocated(s: seq<byte>, pack: Pack, images: seq<Image>, im: Image, part: seq<byte>)
    requires pack.Valid() && ValidImages(images) && im.Valid() && |images| < |pack.table| && |part| < |im.payload|
    requires Built(s, pack, images, im.Header() + part)
    ensures IndicatorCount(s) == |pack.table|
    ensures Locate(s) == InPayload(|images|, |s| - |part|, im.imageId, |im.payload|)
  {
    hide IndicatorCount, LocateImage, Finished, Locate, EncodeImages, ForInactive, Lies, Built;
    BuiltParts(s, pack, images, im.Header() + part);
    PackIsLocated(s, pack);
    ImagesArePassed(s, |pack.Encode()|, images, 0, |pack.table|, Bank0);
    LiesSplit(s, |s| - |part| - MP_HEADER_SIZE, im.Header(), part);
    PartIsLocated(s, |s| - |part| - MP_HEADER_SIZE, im, |images|, |pack.table|);
  }

  lemma {:induction false} PartIsLocated(s: seq<byte>, pos: nat, im: Image, idx: nat, num: nat)
    requires im.Valid() && idx < num && Lies(s, pos, im.Header()) && |s| < pos + MP_HEADER_SIZE + |im.payload|
    ensures LocateImage(s, pos, idx, num) == InPayload(idx, pos + MP_HEADER_SIZE, im.imageId, |im.payload|)
  {
    hide Info;
    HeaderIsRead(im);
  }

  /** The addresses of the images that are not for the active bank. */
  function InactiveAddrs(table: seq<Entry>, idx: nat, num: nat, bank: ActiveBank): seq<StoreOp> {
    if table == [] then []
    else (if BankOfImage(num, idx) != bank then [MakeReady(table[0].addr)] else []) + InactiveAddrs(table[1..], idx + 1, num, bank)
  }

  lemma {:induction false} EntryIsRead(before: seq<byte>, e: Entry, rest: seq<byte>)
    requires e.Valid()
    ensures Le32(before + (e.Encode() + rest), |before|) == e.addr
  {
    hide Le32, Bytes32;
    var s := before + (e.Encode() + rest);
    assert s[|before|..|before| + 4] == Bytes32(e.addr);
    Le32Exactly(s, |before|, e.addr);
  }

  lemma {:induction false} TableIsRead(p: Parser, before: seq<byte>, table: seq<Entry>, i: nat)
    requires ValidTable(table) && i + |table| == p.num && |before| == 12 * i && p.subHeaders == before + EncodeTable(table)
    ensures ReadyOps(p, i) == InactiveAddrs(table, i, p.num, p.bank)
    decreases |table|
  {
    hide Le32;
    if table != [] {
      var e, later := table[0], table[1..];
      EntryIsRead(before, e, EncodeTable(later));
      assert p.subHeaders == before + (e.Encode() + EncodeTable(later)) == (before + e.Encode()) + EncodeTable(later);
      TableIsRead(p, before + e.Encode(), later, i + 1);
    }
  }

  /** The main result. However a stream is cut into blocks of at most 512 bytes, and whatever follows it, a parser
      that is fed all of it without a fault takes every block and ends in MP_INFO; the flash has been given exactly
      the payloads of the images for the inactive bank, each under its id and checked, in order; and activation
      makes ready exactly the addresses the table holds for these. */
  lemma {:induction false} StreamIsInstalled(p: Parser, pack: Pack, images: seq<Image>, trail: seq<byte>, blocks: seq<seq<byte>>, answers: seq<Answers>)
    requires Fresh(p) && pack.Valid() && ValidImages(images) && |images| == |pack.table|
    requires |answers| == |blocks| && AtMost512(blocks) && AllWell(answers)
    requires Built(Concat(blocks), pack, images, trail)
    ensures var r := Feed(p, blocks, answers);
            && r.1 == 0 && r.0.stage == MpInfo
            && Records(r.0.log) == Some(ForInactive(images, 0, |images|, p.bank))
            && 12 * r.0.num <= |r.0.subHeaders| && ReadyOps(r.0, 0) == InactiveAddrs(pack.table, 0, |images|, p.bank)
  {
    hide Feed, IndicatorCount, LocateImage, Finished, Records, ReadyOps, InStage, Locate, Built, ForInactive;
    var s := Concat(blocks);
    StreamIsLocated(s, pack, images, trail, p.bank);
    FeedTracks(p, blocks, answers);
    var q := Feed(p, blocks, answers).0;
    MpInfoIsComplete(q, s);
    ExpectedIsFinished(s, FirstImagePos(|images|), 0, |images|, p.bank);
    assert [] + EncodeTable(pack.table) == EncodeTable(pack.table);
    TableIsRead(q, [], pack.table, 0);
  }

  lemma {:induction false} ExpectedIsFinished(s: seq<byte>, pos: nat, idx: nat, num: nat, bank: ActiveBank)
    requires pos <= |s| && idx <= num && LocateImage(s, pos, idx, num).Complete?
    ensures Expected(s, pos, idx, num, bank) == Finished(s, pos, idx, num, bank)
  {
    hide Finished, LocateImage;
    assert Finished(s, pos, idx, num, bank) + [] == Finished(s, pos, idx, num, bank);
  }

  /** On the way there: once the header of an image is in, the parser holds exactly the id and the size it was built
      for, and has counted the payload bytes that came with it. */
  lemma {:induction false} HeaderIsHeld(p: Parser, pack: Pack, images: seq<Image>, im: Image, part: seq<byte>, blocks: seq<seq<byte>>, answers: seq<Answers>)
    requires Fresh(p) && pack.Valid() && ValidImages(images) && im.Valid() && |images| < |pack.table| && |part| < |im.payload|
    requires |answers| == |blocks| && AtMost512(blocks) && AllWell(answers)
    requires Built(Concat(blocks), pack, images, im.Header() + part)
    ensures var r := Feed(p, blocks, answers);
            && r.1 == 0 && r.0.stage == ImagePayload && r.0.idx == |images|
            && r.0.imageId == im.imageId && r.0.size == |im.payload| && r.0.down == |part|
            && (r.0.valid <==> BankOfImage(|pack.table|, |images|) != p.bank)
  {
    hide Feed, IndicatorCount, LocateImage, Finished, Records, Locate, Built;
    PayloadIsLocated(Concat(blocks), pack, images, im, part);
    FeedTracks(p, blocks, answers);
  }
}
