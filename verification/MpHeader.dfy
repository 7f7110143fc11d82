/** The 512-byte sub-image header of applications/matter_common/matter_ota.c: a chain of items, each a
    16-bit id, an 8-bit length and that many bytes of value. */
module MpHeader {
  import opened Bytes

  const MP_HEADER_SIZE := 512
  const ITEM_DATA_LEN := 0x0004
  const ITEM_IMAGE_ID := 0x0012

  datatype Option<T> = None | Some(value: T)

  /** How far behind the header the scan may look: two bytes past an item start at 511. */
  const SCAN_REACH := 514

  function ItemId(p: seq<byte>, i: nat): nat
    requires i < MP_HEADER_SIZE && SCAN_REACH <= |p|
  {
    Le16(p, i)
  }

  function NextItem(p: seq<byte>, i: nat): (j: nat)
    requires i < MP_HEADER_SIZE && SCAN_REACH <= |p|
    ensures i < j <= i + 258
  {
    i + 3 + Val(p[i + 2])
  }

  /** j is the start of an item on the chain that begins at i. */
  ghost predicate OnChain(p: seq<byte>, i: nat, j: nat)
    requires SCAN_REACH <= |p|
    decreases MP_HEADER_SIZE - i
  {
    i == j || (i < MP_HEADER_SIZE && i < j && OnChain(p, NextItem(p, i), j))
  }

  /** Position r is where the chain from i first carries the id; -1 says that it never does. */
  ghost predicate FirstItem(itemId: nat, p: seq<byte>, i: nat, r: int)
    requires SCAN_REACH <= |p|
  {
    && (r == -1 || (i <= r < MP_HEADER_SIZE && OnChain(p, i, r) && ItemId(p, r) == itemId))
    && forall j :: i <= j < (if r == -1 then MP_HEADER_SIZE else r) && OnChain(p, i, j) ==> ItemId(p, j) != itemId
  }

  function ItemPos(itemId: nat, p: seq<byte>, i: nat): (r: int)
    requires SCAN_REACH <= |p|
    ensures FirstItem(itemId, p, i, r)
    decreases MP_HEADER_SIZE - i
  {
    if i >= MP_HEADER_SIZE then -1
    else if ItemId(p, i) == itemId then i
    else
      var r := ItemPos(itemId, p, NextItem(p, i));
      assert forall j :: i < j < MP_HEADER_SIZE && OnChain(p, i, j) ==> OnChain(p, NextItem(p, i), j) && NextItem(p, i) <= j;
      r
  }

  lemma FirstItemUnique(itemId: nat, p: seq<byte>, i: nat, r: int, r': int)
    requires SCAN_REACH <= |p| && FirstItem(itemId, p, i, r) && FirstItem(itemId, p, i, r')
    ensures r == r'
  {
  }

  /** matter_ota_get_item_pos_from_header: the first matching item start on the chain, or -1 when no item
      start below 512 matches. */
  method GetItemPos(itemId: nat, header: array<byte>) returns (r: int)
    requires SCAN_REACH <= header.Length
    ensures FirstItem(itemId, header[..], 0, r)
    ensures r == ItemPos(itemId, header[..], 0)
  {
    var i := 0;
    while i < MP_HEADER_SIZE
      invariant ItemPos(itemId, header[..], 0) == ItemPos(itemId, header[..], i)
      decreases MP_HEADER_SIZE - i
    {
      var id := Le16(header[..], i);
      var len := Val(header[i + 2]);
      if id == itemId {
        return i;
      }
      i := i + 3 + len;
    }
    return -1;
  }

  // ---------- what the 512 bytes alone determine ----------

  datatype Lookup = At(pos: nat) | Absent | Unsettled

  /** Where the header itself places an item. Only an item start at 511 whose single byte inside the header
      matches is left open: the rest of its id lies behind the header. */
  function LookUp(itemId: nat, h: seq<byte>, i: nat): Lookup
    requires |h| == MP_HEADER_SIZE
    decreases MP_HEADER_SIZE - i
  {
    if i >= MP_HEADER_SIZE then Absent
    else if i == MP_HEADER_SIZE - 1 then (if Val(h[i]) == itemId % 256 then Unsettled else Absent)
    else if Le16(h, i) == itemId then At(i)
    else if i == MP_HEADER_SIZE - 2 then Absent
    else LookUp(itemId, h, i + 3 + Val(h[i + 2]))
  }

  /** What the scan sees inside the header. */
  lemma ScanStep(itemId: nat, h: seq<byte>, tail: seq<byte>, i: nat)
    requires |h| == MP_HEADER_SIZE && 2 <= |tail| && i < MP_HEADER_SIZE - 2
    ensures var j := i + 3 + Val(h[i + 2]);
            ItemPos(itemId, h + tail, i) == if Le16(h, i) == itemId then i else ItemPos(itemId, h + tail, j)
  {
    hide FirstItem, Val;
    assert ItemId(h + tail, i) == Le16(h, i);
  }

  /** And an item start among its last two bytes: the next one would lie behind it. */
  lemma ScanEnd(itemId: nat, h: seq<byte>, tail: seq<byte>, i: nat)
    requires |h| == MP_HEADER_SIZE && 2 <= |tail| && MP_HEADER_SIZE - 2 <= i
    ensures ItemPos(itemId, h + tail, i) == if i < MP_HEADER_SIZE && Le16(h + tail, i) == itemId then i else -1
  {
    hide FirstItem, Le16;
  }

  lemma SplitId(itemId: nat, lo: nat, hi: nat)
    requires itemId < 0x1_0000 && lo < 256
    ensures lo + 256 * hi == itemId <==> lo == itemId % 256 && hi == itemId / 256
  {
  }

  lemma {:induction false} LookUpDecides(itemId: nat, h: seq<byte>, tail: seq<byte>, i: nat)
    requires |h| == MP_HEADER_SIZE && 2 <= |tail| && itemId < 0x1_0000
    ensures match LookUp(itemId, h, i)
            case At(pos) => pos < MP_HEADER_SIZE - 1 && ItemPos(itemId, h + tail, i) == pos
            case Absent => ItemPos(itemId, h + tail, i) == -1
            case Unsettled =>
              ItemPos(itemId, h + tail, i) == if Val(tail[0]) == itemId / 256 then MP_HEADER_SIZE - 1 else -1
    decreases MP_HEADER_SIZE - i
  {
    hide ItemPos, FirstItem, Val;
    if i < MP_HEADER_SIZE - 2 {
      ScanStep(itemId, h, tail, i);
      if Le16(h, i) != itemId {
        LookUpDecides(itemId, h, tail, i + 3 + Val(h[i + 2]));
      }
    } else {
      ScanEnd(itemId, h, tail, i);
      if i == MP_HEADER_SIZE - 1 {
        SplitId(itemId, Val(h[i]), Val(tail[0]));
      }
    }
  }

  /** How much of the buffer one header can draw on: four value bytes of an item at 511. */
  const FIELD_REACH := 518

  /** What rtk_matter_ota_process_mp_header takes from the buffer: image id and payload size. */
  function Fields(p: seq<byte>): Option<(nat, nat)>
    requires FIELD_REACH <= |p|
  {
    var idPos := ItemPos(ITEM_IMAGE_ID, p, 0);
    var lenPos := ItemPos(ITEM_DATA_LEN, p, 0);
    if idPos == -1 || lenPos == -1 then None
    else Some((Le16(p, idPos + 3), Le32(p, lenPos + 3)))
  }

  datatype HeaderInfo = Found(imageId: nat, size: nat) | Missing | Spills

  predicate Inside(l: Lookup, width: nat) { l.At? && l.pos + 3 + width <= MP_HEADER_SIZE }

  /** What the header bytes alone say. It spills when the answer depends on what lies behind them. */
  function Info(h: seq<byte>): HeaderInfo
    requires |h| == MP_HEADER_SIZE
  {
    var id, len := LookUp(ITEM_IMAGE_ID, h, 0), LookUp(ITEM_DATA_LEN, h, 0);
    if id.Absent? || len.Absent? then Missing
    else if Inside(id, 2) && Inside(len, 4) then Found(Le16(h, id.pos + 3), Le32(h, len.pos + 3))
    else Spills
  }

  /** A header that does not spill is read the same whatever lies behind it in the buffer. */
  lemma InfoDecides(h: seq<byte>, tail: seq<byte>)
    requires |h| == MP_HEADER_SIZE && FIELD_REACH <= |h| + |tail|
    ensures Info(h).Found? ==> Fields(h + tail) == Some((Info(h).imageId, Info(h).size))
    ensures Info(h).Missing? ==> Fields(h + tail) == None
  {
    hide ItemPos, LookUp, FirstItem, Val;
    LookUpDecides(ITEM_IMAGE_ID, h, tail, 0);
    LookUpDecides(ITEM_DATA_LEN, h, tail, 0);
  }

  function Tail(at: nat, b: byte): (t: seq<byte>)
    requires at < 6
    ensures |t| == 6
  {
    seq(6, k => if k == at then b else 0)
  }

  /** One that spills is read differently for some two contents behind it: this is exactly when the outcome
      depends on how the stream was cut, or on what the buffer held before. */
  lemma SpillsExactly(h: seq<byte>)
    requires |h| == MP_HEADER_SIZE
    ensures Info(h).Spills? <==>
            exists t: seq<byte>, u: seq<byte> :: |t| == 6 && |u| == 6 && Fields(h + t) != Fields(h + u)
  {
    if Info(h).Spills? {
      var t, u := TwoTails(h);
      assert Fields(h + t) != Fields(h + u);
    } else {
      forall t: seq<byte>, u: seq<byte> | |t| == 6 && |u| == 6
        ensures Fields(h + t) == Fields(h + u)
      {
        InfoDecides(h, t);
        InfoDecides(h, u);
      }
    }
  }

  lemma ValOfDigit()
    ensures Val(0) == 0 && Val(1) == 1
  {
  }

  lemma TwoTails(h: seq<byte>) returns (t: seq<byte>, u: seq<byte>)
    requires |h| == MP_HEADER_SIZE && Info(h).Spills?
    ensures |t| == 6 && |u| == 6 && Fields(h + t) != Fields(h + u)
  {
    hide ItemPos, LookUp, FirstItem, Val;
    ValOfDigit();
    var id, len := LookUp(ITEM_IMAGE_ID, h, 0), LookUp(ITEM_DATA_LEN, h, 0);
    var idPos := if id.At? then id.pos else MP_HEADER_SIZE - 1;
    var lenPos := if len.At? then len.pos else MP_HEADER_SIZE - 1;
    LookUpDecides(ITEM_IMAGE_ID, h, Tail(0, 0), 0);
    LookUpDecides(ITEM_DATA_LEN, h, Tail(0, 0), 0);
    var at := if !Inside(len, 4) then lenPos + 6 - MP_HEADER_SIZE else idPos + 4 - MP_HEADER_SIZE;
    t, u := Tail(0, 0), Tail(at, 1);
    LookUpDecides(ITEM_IMAGE_ID, h, u, 0);
    LookUpDecides(ITEM_DATA_LEN, h, u, 0);
  }

  /** There are such headers. This one has DATA_LEN in front, another item from 258 on, and in its last byte the
      first byte of IMAGE_ID. */
  function SpillingHeader(): (h: seq<byte>)
    ensures |h| == MP_HEADER_SIZE
  {
    seq(MP_HEADER_SIZE, k => if k == 0 then 4 else if k == 2 then 255 else if k == 260 then 250 else if k == 511 then 0x12 else 0)
  }

  lemma SomeHeaderSpills()
    ensures Info(SpillingHeader()).Spills?
  {
    var h := SpillingHeader();
    assert Val(h[0]) == 4 && Val(h[1]) == 0 && Val(h[2]) == 255 && Val(h[258]) == 0 && Val(h[259]) == 0 && Val(h[260]) == 250;
    assert Val(h[511]) == 0x12;
    assert LookUp(ITEM_DATA_LEN, h, 0) == At(0);
    assert LookUp(ITEM_IMAGE_ID, h, 511) == Unsettled;
    assert LookUp(ITEM_IMAGE_ID, h, 258) == Unsettled;
    assert LookUp(ITEM_IMAGE_ID, h, 0) == Unsettled;
  }
}
