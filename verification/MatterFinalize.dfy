/** Activation at the end of a Matter download. */
module MatterFinalize {
  import opened Bytes
  import opened MpHeader
  import opened MatterParser
  import opened MatterChunking
  import opened MatterRuns

  /** The test of rtk_matter_ota_finalize, written the other way round than the one made per image. */
  predicate MarksReady(bank: ActiveBank, num: nat, i: nat) {
    (bank == Bank0 && i >= num / 2) || (bank == Bank1 && i < num / 2)
  }

  function DownloadAddr(subHeaders: seq<byte>, i: nat): nat
    requires 12 * i + 12 <= |subHeaders|
  {
    Le32(subHeaders, 12 * i)
  }

  /** The headers made ready, from image i on. */
  function ReadyOps(p: Parser, i: nat): seq<StoreOp>
    requires i <= p.num && 12 * p.num <= |p.subHeaders|
    decreases p.num - i
  {
    if i == p.num then []
    else (if MarksReady(p.bank, p.num, i) then [MakeReady(DownloadAddr(p.subHeaders, i))] else []) + ReadyOps(p, i + 1)
  }

  predicate Within(chosen: seq<nat>, lo: nat, hi: nat) {
    chosen == [] || (lo <= chosen[0] < hi && Within(chosen[1..], lo, hi))
  }

  lemma {:induction false} WithinWider(chosen: seq<nat>, lo: nat, hi: nat, lo': nat)
    requires Within(chosen, lo, hi) && lo' <= lo
    ensures Within(chosen, lo', hi)
  {
    if chosen != [] {
      WithinWider(chosen[1..], lo, hi, lo');
    }
  }

  /** The images of the inactive bank, in ascending order. */
  function SelectedFrom(bank: ActiveBank, num: nat, idx: nat): (r: seq<nat>)
    requires idx <= num
    ensures Within(r, idx, num)
    decreases num - idx
  {
    if idx == num then []
    else
      var rest := SelectedFrom(bank, num, idx + 1);
      WithinWider(rest, idx + 1, num, idx);
      if Selected(bank, num, idx) then
        assert ([idx] + rest)[1..] == rest;
        [idx] + rest
      else rest
  }

  lemma {:induction false} SelectedFromIsExact(bank: ActiveBank, num: nat, idx: nat, i: nat)
    requires idx <= i < num
    ensures i in SelectedFrom(bank, num, idx) <==> Selected(bank, num, i)
    decreases num - idx
  {
    var rest := SelectedFrom(bank, num, idx + 1);
    if i == idx {
      NotWithin(rest, idx + 1, num, i);
    } else {
      SelectedFromIsExact(bank, num, idx + 1, i);
    }
  }

  lemma {:induction false} NotWithin(chosen: seq<nat>, lo: nat, hi: nat, i: nat)
    requires Within(chosen, lo, hi) && i < lo
    ensures i !in chosen
  {
    if chosen != [] {
      NotWithin(chosen[1..], lo, hi, i);
    }
  }

  /** Every image belongs to exactly one bank, for even and odd numbers of images alike. */
  lemma BanksPartition(num: nat)
    ensures forall i :: 0 <= i < num ==> Selected(Bank0, num, i) != Selected(Bank1, num, i)
    ensures forall i :: 0 <= i < num ==> (i in SelectedFrom(Bank0, num, 0)) != (i in SelectedFrom(Bank1, num, 0))
    ensures |SelectedFrom(Bank0, num, 0)| + |SelectedFrom(Bank1, num, 0)| == num
  {
    forall i | 0 <= i < num
      ensures (i in SelectedFrom(Bank0, num, 0)) != (i in SelectedFrom(Bank1, num, 0))
    {
      SelectedFromIsExact(Bank0, num, 0, i);
      SelectedFromIsExact(Bank1, num, 0, i);
    }
    SelectedCounts(num, 0);
  }

  lemma {:induction false} SelectedCounts(num: nat, idx: nat)
    requires idx <= num
    ensures |SelectedFrom(Bank0, num, idx)| + |SelectedFrom(Bank1, num, idx)| == num - idx
    decreases num - idx
  {
    if idx < num {
      SelectedCounts(num, idx + 1);
    }
  }

  /** All the images of a complete stream, whichever bank they are for. */
  function Images(s: seq<byte>, pos: nat, idx: nat, num: nat): (r: seq<Record>)
    requires pos <= |s| && idx <= num && LocateImage(s, pos, idx, num).Complete?
    ensures |r| == num - idx
    decreases num - idx
  {
    if idx == num then []
    else
      PassImage(s, s, pos, idx, num, Bank0);
      [Record(HeaderAt(s, pos).imageId, s[pos + MP_HEADER_SIZE..ImageEnd(s, pos)], true)]
      + Images(s, ImageEnd(s, pos), idx + 1, num)
  }

  /** The chosen images, where images[0] has index idx. */
  function Choose(images: seq<Record>, chosen: seq<nat>, idx: nat): seq<Record>
    requires Within(chosen, idx, idx + |images|)
  {
    if chosen == [] then [] else [images[chosen[0] - idx]] + Choose(images, chosen[1..], idx)
  }

  /** Positions are counted from idx, so an image put in front of those chosen from moves nothing. */
  lemma {:induction false} ChooseLater(images: seq<Record>, rest: seq<Record>, chosen: seq<nat>, idx: nat)
    requires images != [] && rest == images[1..]
    requires Within(chosen, idx + 1, idx + 1 + |rest|) && Within(chosen, idx, idx + |images|)
    ensures Choose(images, chosen, idx) == Choose(rest, chosen, idx + 1)
  {
    if chosen != [] {
      assert images[chosen[0] - idx] == rest[chosen[0] - (idx + 1)];
      ChooseLater(images, rest, chosen[1..], idx);
    }
  }

  /** One image more in front, chosen or not. */
  lemma {:induction false} ChooseFirst(images: seq<Record>, rest: seq<Record>, chosen: seq<nat>, idx: nat)
    requires images != [] && rest == images[1..]
    requires Within(chosen, idx + 1, idx + 1 + |rest|) && Within(chosen, idx, idx + |images|) && Within([idx] + chosen, idx, idx + |images|)
    ensures Choose(images, [idx] + chosen, idx) == [images[0]] + Choose(rest, chosen, idx + 1)
    ensures Choose(images, chosen, idx) == [] + Choose(rest, chosen, idx + 1)
  {
    ChooseLater(images, rest, chosen, idx);
    assert ([idx] + chosen)[1..] == chosen;
  }

  lemma {:induction false} FinishedAreChosen(s: seq<byte>, pos: nat, idx: nat, num: nat, bank: ActiveBank)
    requires pos <= |s| && idx <= num && LocateImage(s, pos, idx, num).Complete?
    ensures Finished(s, pos, idx, num, bank) == Choose(Images(s, pos, idx, num), SelectedFrom(bank, num, idx), idx)
    decreases num - idx
  {
    hide HeaderAt, ImageEnd, WholeImage, LocateImage, Choose;
    if idx < num {
      CompleteHasImage(s, pos, idx, num);
      var next := ImageEnd(s, pos);
      PassImage(s, s, pos, idx, num, bank);
      ImageEndInside(s, pos);
      FinishedAreChosen(s, next, idx + 1, num, bank);
      var images, rest, chosen := Images(s, pos, idx, num), Images(s, next, idx + 1, num), SelectedFrom(bank, num, idx + 1);
      WithinWider(chosen, idx + 1, num, idx);
      assert ([idx] + chosen)[1..] == chosen;
      ChooseFirst(images, rest, chosen, idx);
    } else {
      NoneChosen(idx);
    }
  }

  lemma NoneChosen(idx: nat)
    ensures Choose([], [], idx) == []
  {
  }

  lemma CompleteHasImage(s: seq<byte>, pos: nat, idx: nat, num: nat)
    requires pos <= |s| && idx < num && LocateImage(s, pos, idx, num).Complete?
    ensures WholeImage(s, pos)
  {
    hide Info;
  }

  function MakeAllReady(subHeaders: seq<byte>, chosen: seq<nat>): seq<StoreOp>
    requires Within(chosen, 0, |subHeaders| / 12)
  {
    if chosen == [] then [] else [MakeReady(DownloadAddr(subHeaders, chosen[0]))] + MakeAllReady(subHeaders, chosen[1..])
  }

  lemma {:induction false} ReadyOpsAreSelected(p: Parser, i: nat)
    requires i <= p.num && 12 * p.num <= |p.subHeaders|
    ensures Within(SelectedFrom(p.bank, p.num, i), 0, |p.subHeaders| / 12)
    ensures ReadyOps(p, i) == MakeAllReady(p.subHeaders, SelectedFrom(p.bank, p.num, i))
    decreases p.num - i
  {
    hide DownloadAddr;
    if i < p.num {
      ReadyOpsAreSelected(p, i + 1);
      var chosen := SelectedFrom(p.bank, p.num, i + 1);
      assert ([i] + chosen)[1..] == chosen && [] + chosen == chosen;
    }
  }

  /** The headers finalize makes ready are those of the chosen images, and the flash has been given the whole
      payload of each of these, checked, and of no other, in the same order. */
  ghost predicate ReadyIsFlashed(p: Parser, s: seq<byte>) {
    var first, chosen := FirstImagePos(p.num), SelectedFrom(p.bank, p.num, 0);
    && first <= |s|
    && p.subHeaders == s[PACK_HEADER_LEN1..first]
    && LocateImage(s, first, 0, p.num).Complete?
    && Within(chosen, 0, |p.subHeaders| / 12)
    && ReadyOps(p, 0) == MakeAllReady(p.subHeaders, chosen)
    && Records(p.log) == Some(Choose(Images(s, first, 0, p.num), chosen, 0))
    && AllChecked(Records(p.log).value)
  }

  lemma FinalizeMatchesFlashed(p: Parser, s: seq<byte>)
    requires Tracks(p, s) && p.stage == MpInfo
    ensures ReadyIsFlashed(p, s)
  {
    hide Info, Records, IndicatorCount, LocateImage, Finished;
    MpInfoIsComplete(p, s);
    ResumesSomewhere(p, s, []);
    var first, chosen := FirstImagePos(p.num), SelectedFrom(p.bank, p.num, 0);
    FinishedAreChosen(s, first, 0, p.num, p.bank);
    FinishedAreChecked(s, first, 0, p.num, p.bank);
    ReadyOpsAreSelected(p, 0);
    assert s + [] == s;
    assert Finished(s, first, 0, p.num, p.bank) + [] == Finished(s, first, 0, p.num, p.bank);
  }
}
