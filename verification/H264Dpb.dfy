/** The H.264 decoded picture buffer as the program keeps it: frame objects updated in place. Each method is proved to
    compute the function of `H264DpbSpec` on the value of the buffer. */
module H264Dpb {
  import opened Modulo
  import opened Seqs
  import opened H264DpbSpec
  import Spec = H264DpbSpec

  /** A frame object. Its number and whether it was inferred are fixed before it is first stored. */
  class Picture {
    const systemFrameNumber: nat
    const nonexisting: bool
    var picOrderCnt: int
    var topFieldOrderCnt: int
    var bottomFieldOrderCnt: int
    var frameNum: int
    var frameNumWrap: int
    var picNum: int
    var longTermPicNum: int
    var longTermFrameIdx: int
    var ref: RefKind
    var refPic: bool
    var neededForOutput: bool
    var memMgmt5: bool

    function View(): Pic
      reads this
    {
      Pic(systemFrameNumber, picOrderCnt, frameNum, frameNumWrap, picNum, longTermPicNum, longTermFrameIdx,
          ref, refPic, neededForOutput, nonexisting)
    }

    constructor (id: nat, top: int, bottom: int, num: int, isRef: bool, inferred: bool)
      ensures View() == Pic(id, Min(top, bottom), num, 0, num, 0, 0, if isRef then ShortTerm else Unused, isRef,
                            false, inferred)
      ensures topFieldOrderCnt == top && bottomFieldOrderCnt == bottom && !memMgmt5
    {
      systemFrameNumber, nonexisting := id, inferred;
      picOrderCnt, topFieldOrderCnt, bottomFieldOrderCnt := Min(top, bottom), top, bottom;
      frameNum, frameNumWrap, picNum, longTermPicNum, longTermFrameIdx := num, 0, num, 0, 0;
      ref, refPic := if isRef then ShortTerm else Unused, isRef;
      neededForOutput, memMgmt5 := false, false;
    }

    method SetReference(kind: RefKind)
      modifies `ref, `refPic
      ensures ref == kind && refPic == (old(refPic) || kind != Unused)
    {
      ref := kind;
      if kind != Unused {
        refPic := true;
      }
    }

    /** Operation 5, for a frame: its order counts become relative to its own. */
    method RestartOrderCounts()
      requires picOrderCnt == Min(topFieldOrderCnt, bottomFieldOrderCnt)
      modifies this
      ensures View() == old(View()).(frameNum := 0, poc := 0) && memMgmt5
      ensures topFieldOrderCnt - bottomFieldOrderCnt == old(topFieldOrderCnt - bottomFieldOrderCnt)
      ensures picOrderCnt == Min(topFieldOrderCnt, bottomFieldOrderCnt)
    {
      memMgmt5, frameNum := true, 0;
      topFieldOrderCnt := topFieldOrderCnt - picOrderCnt;
      bottomFieldOrderCnt := bottomFieldOrderCnt - picOrderCnt;
      picOrderCnt := Min(topFieldOrderCnt, bottomFieldOrderCnt);
    }
  }

  /** The values of a list of frame objects. */
  ghost predicate Shows(ps: seq<Picture>, pics: seq<Pic>)
    reads ps
  {
    && |ps| == |pics|
    && forall i :: 0 <= i < |ps| ==> ps[i].View() == pics[i]
  }

  lemma ShowsLength(ps: seq<Picture>, pics: seq<Pic>)
    requires Shows(ps, pics)
    ensures |ps| == |pics|
  {
  }

  lemma ShowsAt(ps: seq<Picture>, pics: seq<Pic>, i: nat)
    requires i < |ps| && Shows(ps, pics)
    ensures |ps| == |pics| && ps[i].View() == pics[i]
  {
  }

  lemma ShowsRemove(ps: seq<Picture>, pics: seq<Pic>, i: nat)
    requires i < |ps| && Shows(ps, pics)
    ensures Shows(RemoveAt(ps, i), RemoveAt(pics, i))
  {
  }

  lemma ShowsAppend(ps: seq<Picture>, pics: seq<Pic>, p: Picture)
    requires Shows(ps, pics)
    ensures Shows(ps + [p], pics + [p.View()])
  {
  }

  class Dpb {
    var picList: seq<Picture>
    var maxNumFrames: int
    var numOutputNeeded: int
    var maxNumReorderFrames: nat
    var lastOutputPoc: int
    var lastOutputNonRef: bool
    ghost var pics: seq<Pic>  // the value of picList
    ghost var Repr: set<Picture>  // every frame that may be in picList

    ghost predicate Valid()
      reads this, Repr
    {
      && (forall p :: p in picList ==> p in Repr)
      && Injective(picList)
      && Shows(picList, pics)
      && numOutputNeeded == Count(pics, Waiting)
    }

    ghost function Lim(): Limits
      reads this
    {
      Limits(maxNumFrames, maxNumReorderFrames)
    }

    constructor ()
      ensures Valid() && picList == [] && pics == [] && Repr == {}
      ensures lastOutputPoc == MININT32 && !lastOutputNonRef && maxNumFrames == 0 && maxNumReorderFrames == 0
    {
      picList, maxNumFrames, numOutputNeeded, maxNumReorderFrames := [], 0, 0, 0;
      lastOutputPoc, lastOutputNonRef := MININT32, false;
      pics, Repr := [], {};
    }

    method Clear()
      modifies `picList, `numOutputNeeded, `lastOutputPoc, `lastOutputNonRef, `pics
      ensures Valid() && picList == [] && pics == [] && lastOutputPoc == MININT32 && !lastOutputNonRef
    {
      picList, pics := [], [];
      numOutputNeeded, lastOutputPoc, lastOutputNonRef := 0, MININT32, false;
    }

    /** The middle of `Add`: the frame joins the list. */
    method Append(picture: Picture)
      requires Injective(picList) && Shows(picList, pics) && picture !in picList
      requires forall p :: p in picList ==> p in Repr
      modifies `picList, `pics, `Repr
      ensures Injective(picList) && Shows(picList, pics)
      ensures forall p :: p in picList ==> p in Repr
      ensures picList == old(picList) + [picture] && pics == old(pics) + [picture.View()]
      ensures Repr == old(Repr) + {picture}
    {
      InjectiveAppend(picList, picture);
      ShowsAppend(picList, pics, picture);
      picList, pics, Repr := picList + [picture], pics + [picture.View()], Repr + {picture};
    }

    method Add(picture: Picture)
      requires Valid() && picture !in Repr
      modifies `picList, `numOutputNeeded, `lastOutputPoc, `lastOutputNonRef, `pics, `Repr, picture`neededForOutput
      ensures Valid() && picList == old(picList) + [picture] && Repr == old(Repr) + {picture}
      ensures pics == old(pics) + [Stored(old(picture.View()))]
      ensures lastOutputPoc == if picture.picOrderCnt == 0 then MININT32 else old(lastOutputPoc)
      ensures lastOutputNonRef == if picture.picOrderCnt == 0 then false else old(lastOutputNonRef)
    {
      hide CountTo;
      ghost var p := picture.View();
      if !picture.nonexisting {
        picture.neededForOutput := true;
        numOutputNeeded := numOutputNeeded + 1;
      } else {
        picture.neededForOutput := false;
      }
      assert picture.View() == Stored(p) && Shows(picList, pics);
      CountAppend(pics, Stored(p), Waiting);
      Append(picture);
      if picture.picOrderCnt == 0 {
        lastOutputPoc := MININT32;
        lastOutputNonRef := false;
      }
    }

    method DeleteUnused()
      requires Valid()
      modifies `picList, `pics
      ensures Valid() && pics == Spec.DeleteUnused(old(pics))
    {
      hide Count, Injective, Shows;
      ShowsLength(picList, pics);
      ghost var before, done := pics, 0;
      var i := 0;
      while i < |picList|
        invariant 0 <= i <= |picList| && 0 <= done <= |before|
        invariant |before| - done == |picList| - i
        invariant Injective(picList) && Shows(picList, pics) && |picList| == |pics|
        invariant forall p :: p in picList ==> p in Repr
        invariant pics[..i] == FilterTo(before, done, InUse) && pics[i..] == before[done..]
        decreases |picList| - i
      {
        var picture := picList[i];
        ShowsAt(picList, pics, i);
        FilterStep(before, done, pics, i, InUse);
        if !picture.neededForOutput && picture.ref == Unused {
          InjectiveRemove(picList, i);
          ShowsRemove(picList, pics, i);
          picList, pics := RemoveAt(picList, i), RemoveAt(pics, i);
        } else {
          i := i + 1;
        }
        done := done + 1;
      }
      assert pics[..i] == pics;
      CountFilter(before, InUse, Waiting);
    }

    method NumRefFrames() returns (n: int)
      requires Valid()
      ensures n == Count(pics, IsRef)
    {
      n := 0;
      for i := 0 to |picList|
        invariant n == CountTo(pics, i, IsRef)
      {
        assert picList[i].View() == pics[i];
        if picList[i].ref != Unused {
          n := n + 1;
        }
      }
    }

    method MarkAllNonRef()
      requires Valid()
      modifies `pics, Repr
      ensures Valid() && pics == Map(old(pics), Unmark)
    {
      hide CountTo;
      for i := 0 to |picList|
        invariant pics == old(pics)
        invariant forall k :: 0 <= k < i ==> picList[k].View() == Unmark(pics[k])
        invariant forall k :: i <= k < |picList| ==> picList[k].View() == pics[k]
      {
        picList[i].SetReference(Unused);
      }
      CountSame(pics, Waiting, Map(pics, Unmark), Waiting, |pics|);
      pics := Map(pics, Unmark);
    }

    method GetShortRefByPicNum(num: int) returns (r: Picture?)
      requires Valid()
      ensures var i := Find(pics, ShortWithPicNum(num)); r == if i < 0 then null else picList[i]
    {
      for i := 0 to |picList|
        invariant forall k :: 0 <= k < i ==> !ShortWithPicNum(num)(pics[k])
      {
        assert picList[i].View() == pics[i];
        if picList[i].ref == ShortTerm && picList[i].picNum == num {
          assert ShortWithPicNum(num)(pics[i]);
          return picList[i];
        }
      }
      r := null;
    }

    method GetLongRefByLongTermPicNum(num: int) returns (r: Picture?)
      requires Valid()
      ensures var i := Find(pics, LongWithPicNum(num)); r == if i < 0 then null else picList[i]
    {
      for i := 0 to |picList|
        invariant forall k :: 0 <= k < i ==> !LongWithPicNum(num)(pics[k])
      {
        assert picList[i].View() == pics[i];
        if picList[i].ref == LongTerm && picList[i].longTermPicNum == num {
          assert LongWithPicNum(num)(pics[i]);
          return picList[i];
        }
      }
      r := null;
    }

    method GetLowestFrameNumShortRef() returns (r: Picture?)
      requires Valid()
      ensures var i := LowestShortTo(pics, |pics|); r == if i < 0 then null else picList[i]
      ensures r == null <==> LowestShortTo(pics, |pics|) < 0
    {
      r := null;
      ghost var index := -1;
      for i := 0 to |picList|
        invariant index == LowestShortTo(pics, i)
        invariant r == if index < 0 then null else picList[index]
      {
        assert picList[i].View() == pics[i];
        assert index >= 0 ==> picList[index].View() == pics[index];
        if picList[i].ref == ShortTerm && (r == null || picList[i].frameNumWrap < r.frameNumWrap) {
          r, index := picList[i], i;
        }
      }
    }

    method GetSize() returns (n: nat)
      requires Valid()
      ensures n == |pics|
    {
      n := |picList|;
    }

    method HasEmptyFrameBuffer() returns (b: bool)
      requires Valid()
      ensures b <==> HasEmpty(pics, Lim())
    {
      b := |picList| < maxNumFrames;
    }

    method GetLowestOutputNeededPicture() returns (index: int)
      requires Valid()
      ensures index == Lowest(pics)
    {
      var lowest: Picture? := null;
      index := -1;
      for i := 0 to |picList|
        invariant index == LowestTo(pics, i)
        invariant if index < 0 then lowest == null else lowest == picList[index]
      {
        assert picList[i].View() == pics[i];
        assert index >= 0 ==> picList[index].View() == pics[index];
        if !picList[i].neededForOutput {
          continue;
        }
        if lowest == null {
          lowest := picList[i];
          index := i;
          continue;
        }
        if picList[i].picOrderCnt < lowest.picOrderCnt {
          lowest := picList[i];
          index := i;
        }
      }
    }

    /** How many of the frames before the index still wait. */
    method CountWaitingBefore(index: nat) returns (n: nat)
      requires Valid() && index <= |picList|
      ensures n == CountTo(pics, index, Waiting)
    {
      n := 0;
      for i := 0 to index
        invariant n == CountTo(pics, i, Waiting)
      {
        assert picList[i].View() == pics[i];
        if picList[i].neededForOutput {
          n := n + 1;
        }
      }
    }

    /** The value of the frame about to be inserted, if any. */
    ghost function Inserting(toInsert: Picture?): Option<Pic>
      reads toInsert
    {
      if toInsert == null then None else Some(toInsert.View())
    }

    /** The rules for a buffer that is not full. */
    method EarlyBump(index: nat, toInsert: Picture?, mode: BumpMode) returns (b: bool)
      requires Valid() && index == Lowest(pics)
      ensures b <==> EarlyRules(pics, Lim(), lastOutputPoc, lastOutputNonRef, Inserting(toInsert), mode)
    {
      hide Count;
      var picture := picList[index];
      assert picture.View() == pics[index];
      var lowestPoc, isRefPicture := picture.picOrderCnt, picture.refPic;
      if lastOutputNonRef && !isRefPicture {
        return true;
      }
      if index >= maxNumReorderFrames {
        var needOutput := CountWaitingBefore(index);
        if needOutput >= maxNumReorderFrames {
          return true;
        }
      }
      if toInsert != null && toInsert.picOrderCnt > 0 && lowestPoc < 0 {
        return true;
      }
      if lowestPoc == 0 && |picList| <= 1 {
        return toInsert != null && toInsert.picOrderCnt > lowestPoc;
      }
      if !isRefPicture {
        return true;
      }
      if toInsert != null && !toInsert.refPic && lowestPoc < toInsert.picOrderCnt {
        return true;
      }
      b := mode == VeryLowLatency && lowestPoc > lastOutputPoc && Wrap32(lowestPoc - lastOutputPoc) <= 2;
    }

    method NeedsBump(toInsert: Picture?, mode: BumpMode) returns (b: bool)
      requires Valid()
      ensures b <==> Spec.NeedsBump(pics, Lim(), lastOutputPoc, lastOutputNonRef, Inserting(toInsert), mode)
    {
      hide Count, EarlyRules;
      var lowestPoc := MAXINT32;
      var index := GetLowestOutputNeededPicture();
      if index >= 0 {
        assert picList[index].View() == pics[index];
        lowestPoc := picList[index].picOrderCnt;
      }
      var empty := HasEmptyFrameBuffer();
      if index >= 0 && mode != NormalLatency && empty {
        b := EarlyBump(index, toInsert, mode);
        return;
      }
      if empty {
        return false;
      }
      if toInsert != null && toInsert.refPic {
        return true;
      }
      b := toInsert != null && toInsert.picOrderCnt > lowestPoc;
    }

    method StopWaiting(picture: Picture, ghost index: nat)
      requires Valid() && index < |pics| && picList[index] == picture && pics[index].needed
      modifies picture`neededForOutput, `numOutputNeeded, `pics
      ensures Valid() && pics == old(pics)[index := old(pics)[index].(needed := false)]
    {
      hide Count;
      CountUpdate(pics, index, pics[index].(needed := false), Waiting);
      picture.neededForOutput := false;
      pics := pics[index := pics[index].(needed := false)];
      numOutputNeeded := numOutputNeeded - 1;
    }

    /** The second half of `Bump`: the chosen frame stops waiting and leaves, unless it is still a reference. */
    method TakeOut(index: nat, drain: bool) returns (picture: Picture)
      requires Valid() && index < |pics| && pics[index].needed
      modifies `picList, `numOutputNeeded, `pics, Repr
      ensures Valid() && pics == Output(old(pics), index, drain)
      ensures picture == old(picList)[index] && picture.View() == old(pics)[index].(needed := false)
    {
      hide Count;
      picture := picList[index];
      StopWaiting(picture, index);
      if picture.ref == Unused || drain {
        CountRemove(pics, index, Waiting);
        InjectiveRemove(picList, index);
        ShowsRemove(picList, pics, index);
        picList, pics := RemoveAt(picList, index), RemoveAt(pics, index);
      }
    }

    method Bump(drain: bool) returns (picture: Picture?)
      requires Valid()
      modifies `picList, `numOutputNeeded, `lastOutputPoc, `lastOutputNonRef, `pics, Repr
      ensures Valid()
      ensures var i := Lowest(old(pics));
              if i < 0
              then picture == null && pics == old(pics) && lastOutputPoc == old(lastOutputPoc)
                   && lastOutputNonRef == old(lastOutputNonRef)
              else picture == old(picList)[i] && pics == Output(old(pics), i, drain)
                   && picture.View() == old(pics)[i].(needed := false)
                   && lastOutputPoc == old(pics)[i].poc && lastOutputNonRef == !old(pics)[i].refPic
    {
      hide Count, Shows, Injective;
      var index := GetLowestOutputNeededPicture();
      if index < 0 {
        return null;
      }
      picture := TakeOut(index, drain);
      lastOutputPoc := picture.picOrderCnt;
      lastOutputNonRef := !picture.refPic;
    }

    method SetLastOutput(picture: Picture)
      requires Valid()
      modifies `lastOutputPoc, `lastOutputNonRef
      ensures Valid() && lastOutputPoc == picture.picOrderCnt && lastOutputNonRef == !picture.refPic
    {
      lastOutputPoc := picture.picOrderCnt;
      lastOutputNonRef := !picture.refPic;
    }

    // ---- Marking --------------------------------------------------------------------------------------

    /** The frame at i, found by a search, loses its mark. */
    method UnmarkFound(other: Picture, ghost i: nat)
      requires Valid() && i < |picList| && other == picList[i]
      modifies `pics, other
      ensures Valid() && pics == old(pics)[i := Unmark(old(pics)[i])]
    {
      hide Count;
      CountUpdate(pics, i, Unmark(pics[i]), Waiting);
      assert other.View() == pics[i];
      other.SetReference(Unused);
      pics := pics[i := Unmark(pics[i])];
    }

    method MakeLongFound(other: Picture, idx: int, ghost i: nat)
      requires Valid() && i < |picList| && other == picList[i]
      modifies `pics, other
      ensures Valid() && pics == old(pics)[i := MakeLong(idx)(old(pics)[i])]
    {
      hide Count;
      CountUpdate(pics, i, MakeLong(idx)(pics[i]), Waiting);
      assert other.View() == pics[i];
      other.SetReference(LongTerm);
      other.longTermFrameIdx := idx;
      pics := pics[i := MakeLong(idx)(pics[i])];
    }

    /** The search in operations 3 and 6: it stops at the first frame that holds the index. */
    method FreeLongTermFrameIdx(idx: int)
      requires Valid()
      modifies `pics, Repr
      ensures Valid() && pics == FreeIdx(old(pics), idx)
    {
      for i := 0 to |picList|
        invariant Valid() && pics == old(pics)
        invariant forall k :: 0 <= k < i ==> !LongWithIdx(idx)(pics[k])
      {
        assert picList[i].View() == pics[i];
        if picList[i].ref == LongTerm && picList[i].longTermFrameIdx == idx {
          assert LongWithIdx(idx)(pics[i]);
          UnmarkFound(picList[i], i);
          return;
        }
      }
    }

    method UnmarkLongAbove(max: int)
      requires Valid()
      modifies `pics, Repr
      ensures Valid() && pics == Map(old(pics), UnmarkAbove(max))
    {
      hide CountTo;
      for i := 0 to |picList|
        invariant pics == old(pics)
        invariant forall k :: 0 <= k < i ==> picList[k].View() == UnmarkAbove(max)(pics[k])
        invariant forall k :: i <= k < |picList| ==> picList[k].View() == pics[k]
      {
        var other := picList[i];
        if other.ref == LongTerm && other.longTermFrameIdx > max {
          other.SetReference(Unused);
        }
      }
      CountSame(pics, Waiting, Map(pics, UnmarkAbove(max)), Waiting, |pics|);
      pics := Map(pics, UnmarkAbove(max));
    }

    /** Operation 1. */
    method UnmarkShort(num: int) returns (ok: bool)
      requires Valid()
      modifies `pics, Repr
      ensures Valid() && (ok <==> Find(old(pics), ShortWithPicNum(num)) >= 0)
      ensures var i := Find(old(pics), ShortWithPicNum(num));
              pics == if i < 0 then old(pics) else old(pics)[i := Unmark(old(pics)[i])]
    {
      hide Count, Injective;
      var other := GetShortRefByPicNum(num);
      if other == null {
        return false;
      }
      UnmarkFound(other, Find(pics, ShortWithPicNum(num)));
      ok := true;
    }

    /** Operation 2. */
    method UnmarkLong(num: int) returns (ok: bool)
      requires Valid()
      modifies `pics, Repr
      ensures Valid() && (ok <==> Find(old(pics), LongWithPicNum(num)) >= 0)
      ensures var i := Find(old(pics), LongWithPicNum(num));
              pics == if i < 0 then old(pics) else old(pics)[i := Unmark(old(pics)[i])]
    {
      hide Count, Injective;
      var other := GetLongRefByLongTermPicNum(num);
      if other == null {
        return false;
      }
      UnmarkFound(other, Find(pics, LongWithPicNum(num)));
      ok := true;
    }

    /** Operation 3: a short-term reference becomes long-term. */
    method AssignLongTermFrameIdx(num: int, idx: int) returns (ok: bool)
      requires Valid()
      modifies `pics, Repr
      ensures Valid()
      ensures var i := Find(old(pics), ShortWithPicNum(num));
              pics == if i < 0 then old(pics)
                      else FreeIdx(old(pics), idx)[i := MakeLong(idx)(old(pics)[i])]
      ensures ok <==> Find(old(pics), ShortWithPicNum(num)) >= 0
    {
      hide Count, Injective;
      ghost var i := Find(pics, ShortWithPicNum(num));
      var other := GetShortRefByPicNum(num);
      if other == null {
        return false;
      }
      FreeLongTermFrameIdx(idx);
      MakeLongFound(other, idx, i);
      ok := true;
    }

    /** The operations that mark stored frames only. */
    method ChangeMarks(c: Mmco, picNum: int, ghost m: Marking) returns (ok: bool)
      requires Valid() && 1 <= c.op <= 4 && m.pics == pics && m.cur.picNum == picNum
      modifies `pics, Repr
      ensures Valid() && pics == ApplyMmco(m, c).pics
    {
      hide Count, Shows, Injective, FreeIdx, Map, Find, Unmark, MakeLong, UnmarkAbove, ShortWithPicNum, LongWithPicNum;
      ok := true;
      if c.op == 1 {
        ok := UnmarkShort(picNum - (c.differenceOfPicNumsMinus1 + 1));
      } else if c.op == 2 {
        ok := UnmarkLong(c.longTermPicNum);
      } else if c.op == 3 {
        ok := AssignLongTermFrameIdx(picNum - (c.differenceOfPicNumsMinus1 + 1), c.longTermFrameIdx);
      } else {
        UnmarkLongAbove(c.maxLongTermFrameIdxPlus1 - 1);
      }
    }

    method PerformMemoryManagementControlOperation(c: Mmco, picture: Picture, ghost m: Marking) returns (ok: bool)
      requires Valid() && picture !in Repr && c.op <= 6
      requires m.pics == pics && m.cur == picture.View() && m.memMgmt5 == picture.memMgmt5
      requires picture.picOrderCnt == Min(picture.topFieldOrderCnt, picture.bottomFieldOrderCnt)
      modifies `pics, Repr, picture
      ensures Valid()
      ensures picture.picOrderCnt == Min(picture.topFieldOrderCnt, picture.bottomFieldOrderCnt)
      ensures var r := ApplyMmco(m, c);
              pics == r.pics && picture.View() == r.cur && picture.memMgmt5 == r.memMgmt5
    {
      hide Count, Shows, Injective, FreeIdx, Map, Find;
      ok := true;
      if c.op == 5 {
        MarkAllNonRef();
        picture.RestartOrderCounts();
      } else if c.op == 6 {
        FreeLongTermFrameIdx(c.longTermFrameIdx);
        picture.SetReference(LongTerm);
        picture.longTermFrameIdx := c.longTermFrameIdx;
      } else if c.op != 0 {
        ok := ChangeMarks(c, picture.picNum, m);
      }
    }
  }
}
