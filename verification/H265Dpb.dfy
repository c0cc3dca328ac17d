/** The H.265 decoded picture buffer as the program keeps it: picture objects updated in place.
    Each method is proved to compute the function of `H265DpbSpec` on the value of the buffer. */
module H265Dpb {
  import opened Seqs
  import opened H265DpbSpec
  import Spec = H265DpbSpec

  /** A picture object. Its number, order count and output flag are fixed before it is first stored. */
  class Picture {
    const systemFrameNumber: nat
    const picOrderCnt: int
    const picOrderCntLsb: int
    const outputFlag: bool
    var picLatencyCnt: nat
    var ref: bool
    var longTerm: bool
    var neededForOutput: bool

    function View(): Pic
      reads this
    {
      Pic(systemFrameNumber, picOrderCnt, picOrderCntLsb, outputFlag, ref, longTerm, neededForOutput, picLatencyCnt)
    }

    constructor (id: nat, poc: int, pocLsb: int, output: bool)
      ensures View() == Pic(id, poc, pocLsb, output, false, false, false, 0)
    {
      systemFrameNumber, picOrderCnt, picOrderCntLsb, outputFlag := id, poc, pocLsb, output;
      picLatencyCnt, ref, longTerm, neededForOutput := 0, false, false, false;
    }
  }

  /** The values of a list of picture objects. */
  ghost predicate Shows(ps: seq<Picture>, pics: seq<Pic>)
    reads ps
  {
    && |ps| == |pics|
    && forall i :: 0 <= i < |ps| ==> ps[i].View() == pics[i]
  }

  lemma ShowsLength(ps: seq<Picture>, pics: seq<Pic>)
    requires Shows(ps, pics)
    ensures |ps| == |pics|
  {
  }

  lemma ShowsAt(ps: seq<Picture>, pics: seq<Pic>, i: nat)
    requires i < |ps| && Shows(ps, pics)
    ensures |ps| == |pics| && ps[i].View() == pics[i]
  {
  }

  lemma ShowsRemove(ps: seq<Picture>, pics: seq<Pic>, i: nat)
    requires i < |ps| && Shows(ps, pics)
    ensures Shows(RemoveAt(ps, i), RemoveAt(pics, i)) && Shows(RemoveFast(ps, i), RemoveFast(pics, i))
  {
  }

  lemma ShowsAppend(ps: seq<Picture>, pics: seq<Pic>, p: Picture)
    requires Shows(ps, pics)
    ensures Shows(ps + [p], pics + [p.View()])
  {
  }

  class Dpb {
    var picList: seq<Picture>
    var maxNumPics: int
    var numOutputNeeded: int
    ghost var pics: seq<Pic>  // the value of picList
    ghost var Repr: set<Picture>  // every picture that may be in picList

    ghost predicate Valid()
      reads this, Repr
    {
      && (forall p :: p in picList ==> p in Repr)
      && Injective(picList)
      && Shows(picList, pics)
      && numOutputNeeded == Count(pics, Waiting)
    }

    constructor ()
      ensures Valid() && picList == [] && maxNumPics == 0 && Repr == {}
    {
      picList, maxNumPics, numOutputNeeded, pics, Repr := [], 0, 0, [], {};
    }

    method Clear()
      modifies `picList, `numOutputNeeded, `pics
      ensures Valid() && picList == [] && pics == []
    {
      picList, pics := [], [];
      numOutputNeeded := 0;
    }

    /** The loop of `Add`: every waiting picture gets one picture older. */
    method AgeWaiting()
      requires Valid()
      modifies `pics, Repr
      ensures Valid() && pics == Map(old(pics), Aged)
    {
      hide CountTo;
      for i := 0 to |picList|
        invariant pics == old(pics)
        invariant forall k :: 0 <= k < i ==> picList[k].View() == Aged(pics[k])
        invariant forall k :: i <= k < |picList| ==> picList[k].View() == pics[k]
      {
        var other := picList[i];
        if other.neededForOutput {
          other.picLatencyCnt := other.picLatencyCnt + 1;
        }
      }
      CountSame(pics, Waiting, Map(pics, Aged), Waiting, |pics|);
      pics := Map(pics, Aged);
    }

    /** The end of `Add`: the picture joins the list. */
    method Append(picture: Picture)
      requires Injective(picList) && Shows(picList, pics) && picture !in picList
      requires forall p :: p in picList ==> p in Repr
      modifies `picList, `pics, `Repr
      ensures Injective(picList) && Shows(picList, pics)
      ensures forall p :: p in picList ==> p in Repr
      ensures picList == old(picList) + [picture] && pics == old(pics) + [picture.View()]
      ensures Repr == old(Repr) + {picture}
    {
      InjectiveAppend(picList, picture);
      ShowsAppend(picList, pics, picture);
      picList, pics, Repr := picList + [picture], pics + [picture.View()], Repr + {picture};
    }

    method Add(picture: Picture)
      requires Valid() && picture !in Repr
      modifies `picList, `numOutputNeeded, `pics, `Repr, Repr, picture
      ensures Valid() && picList == old(picList) + [picture] && Repr == old(Repr) + {picture}
      ensures pics == Spec.Add(old(pics), old(picture.View()))
    {
      hide CountTo;
      ghost var p := picture.View();
      if picture.outputFlag {
        AgeWaiting();
        numOutputNeeded := numOutputNeeded + 1;
        picture.neededForOutput := true;
      } else {
        picture.neededForOutput := false;
      }
      picture.ref := true;
      picture.longTerm := false;
      assert picture.View() == Stored(p) && Shows(picList, pics);
      CountAppend(pics, Stored(p), Waiting);
      Append(picture);
    }

    method DeleteUnused()
      requires Valid()
      modifies `picList, `pics
      ensures Valid() && pics == Spec.DeleteUnused(old(pics))
      ensures forall p :: p in old(picList) && p.ref ==> p in picList
    {
      hide Count, Injective, Shows;
      ShowsLength(picList, pics);
      ghost var before, done := pics, 0;
      var i := 0;
      while i < |picList|
        invariant 0 <= i <= |picList| && 0 <= done <= |before|
        invariant |before| - done == |picList| - i
        invariant Injective(picList) && Shows(picList, pics) && |picList| == |pics|
        invariant forall p :: p in old(picList) && p.ref ==> p in picList
        invariant forall p :: p in picList ==> p in Repr
        invariant pics[..i] == FilterTo(before, done, InUse) && pics[i..] == before[done..]
        decreases |picList| - i
      {
        var picture := picList[i];
        ShowsAt(picList, pics, i);
        FilterStep(before, done, pics, i, InUse);
        if !picture.neededForOutput && !picture.ref {
          InjectiveRemove(picList, i);
          ShowsRemove(picList, pics, i);
          RemoveKeepsRest(picList, i);
          picList, pics := RemoveAt(picList, i), RemoveAt(pics, i);
        } else {
          i := i + 1;
        }
        done := done + 1;
      }
      assert pics[..i] == pics;
      CountFilter(before, InUse, Waiting);
    }

    method MarkAllNonRef()
      requires Valid()
      modifies `pics, Repr
      ensures Valid() && pics == Map(old(pics), Unref)
    {
      hide CountTo;
      for i := 0 to |picList|
        invariant pics == old(pics)
        invariant forall k :: 0 <= k < i ==> picList[k].View() == Unref(pics[k])
        invariant forall k :: i <= k < |picList| ==> picList[k].View() == pics[k]
      {
        picList[i].ref := false;
      }
      CountSame(pics, Waiting, Map(pics, Unref), Waiting, |pics|);
      pics := Map(pics, Unref);
    }

    /** The picture at i stops being a reference of any kind. */
    method Unmark(p: Picture, ghost i: nat)
      requires Valid() && i < |picList| && p == picList[i]
      modifies `pics, p
      ensures Valid() && pics == old(pics)[i := old(pics)[i].(ref := false, longTerm := false)]
    {
      hide Count;
      CountUpdate(pics, i, pics[i].(ref := false, longTerm := false), Waiting);
      assert p.View() == pics[i];
      p.ref := false;
      p.longTerm := false;
      pics := pics[i := pics[i].(ref := false, longTerm := false)];
    }

    method GetRefByPoc(poc: int) returns (r: Picture?)
      requires Valid()
      ensures var i := Find(pics, RefWithPoc(poc)); r == if i < 0 then null else picList[i]
    {
      for i := 0 to |picList|
        invariant forall k :: 0 <= k < i ==> !RefWithPoc(poc)(pics[k])
      {
        if picList[i].ref && picList[i].picOrderCnt == poc {
          assert RefWithPoc(poc)(pics[i]);
          return picList[i];
        }
      }
      r := null;
    }

    method GetRefByPocLsb(lsb: int) returns (r: Picture?)
      requires Valid()
      ensures var i := Find(pics, RefWithLsb(lsb)); r == if i < 0 then null else picList[i]
    {
      for i := 0 to |picList|
        invariant forall k :: 0 <= k < i ==> !RefWithLsb(lsb)(pics[k])
      {
        if picList[i].ref && picList[i].picOrderCntLsb == lsb {
          assert RefWithLsb(lsb)(pics[i]);
          return picList[i];
        }
      }
      r := null;
    }

    method GetShortRefByPoc(poc: int) returns (r: Picture?)
      requires Valid()
      ensures var i := Find(pics, ShortRefWithPoc(poc)); r == if i < 0 then null else picList[i]
    {
      for i := 0 to |picList|
        invariant forall k :: 0 <= k < i ==> !ShortRefWithPoc(poc)(pics[k])
      {
        if picList[i].ref && !picList[i].longTerm && picList[i].picOrderCnt == poc {
          assert ShortRefWithPoc(poc)(pics[i]);
          return picList[i];
        }
      }
      r := null;
    }

    method CheckLatencyCount(maxLatency: nat) returns (late: bool)
      requires Valid()
      ensures late <==> Find(pics, LateBy(maxLatency)) >= 0
    {
      for i := 0 to |picList|
        invariant forall k :: 0 <= k < i ==> !LateBy(maxLatency)(pics[k])
      {
        assert picList[i].View() == pics[i];
        if !picList[i].neededForOutput {
          continue;
        }
        if picList[i].picLatencyCnt >= maxLatency {
          assert LateBy(maxLatency)(pics[i]);
          return true;
        }
      }
      late := false;
    }

    method NeedsBump(reorder: nat, latency: nat, buffering: nat) returns (b: bool)
      requires Valid()
      ensures b <==> Spec.NeedsBump(pics, maxNumPics, reorder, latency, buffering)
    {
      if |picList| > maxNumPics {
        return true;
      }
      if numOutputNeeded > reorder {
        return true;
      }
      if numOutputNeeded != 0 && latency != 0 {
        var late := CheckLatencyCount(latency);
        if late {
          return true;
        }
      }
      if buffering != 0 && |picList| >= buffering {
        return true;
      }
      b := false;
    }

    method GetLowestOutputNeededPicture() returns (index: int)
      requires Valid()
      ensures index == Lowest(pics)
    {
      var lowest: Picture? := null;
      index := -1;
      for i := 0 to |picList|
        invariant index == LowestTo(pics, i)
        invariant if index < 0 then lowest == null else lowest == picList[index]
      {
        if !picList[i].neededForOutput {
          continue;
        }
        if lowest == null {
          lowest := picList[i];
          index := i;
          continue;
        }
        if picList[i].picOrderCnt < lowest.picOrderCnt {
          lowest := picList[i];
          index := i;
        }
      }
    }

    method StopWaiting(picture: Picture, ghost index: nat)
      requires Valid() && index < |pics| && picList[index] == picture && pics[index].needed
      modifies picture`neededForOutput, `numOutputNeeded, `pics
      ensures Valid() && pics == old(pics)[index := old(pics)[index].(needed := false)]
    {
      hide Count;
      CountUpdate(pics, index, pics[index].(needed := false), Waiting);
      picture.neededForOutput := false;
      pics := pics[index := pics[index].(needed := false)];
      numOutputNeeded := numOutputNeeded - 1;
    }

    /** The second half of `Bump`: the chosen picture stops waiting and leaves, unless it is still a reference. */
    method TakeOut(index: nat, drain: bool) returns (picture: Picture)
      requires Valid() && index < |pics| && pics[index].needed
      modifies `picList, `numOutputNeeded, `pics, Repr
      ensures Valid() && pics == Output(old(pics), index, drain)
      ensures picture == old(picList)[index]
      ensures forall p :: p in Repr ==> p.ref == old(p.ref)
      ensures forall p :: p in old(picList) && p.ref && !drain ==> p in picList
      ensures picture.View() == old(pics)[index].(needed := false)
    {
      hide Count;
      picture := picList[index];
      StopWaiting(picture, index);
      if !picture.ref || drain {
        CountRemove(pics, index, Waiting);
        InjectiveRemove(picList, index);
        ShowsRemove(picList, pics, index);
        RemoveKeepsRest(picList, index);
        picList, pics := RemoveFast(picList, index), RemoveFast(pics, index);
      }
    }

    method Bump(drain: bool) returns (picture: Picture?)
      requires Valid()
      modifies `picList, `numOutputNeeded, `pics, Repr
      ensures Valid()
      ensures forall p :: p in Repr ==> p.ref == old(p.ref)
      ensures forall p :: p in old(picList) && p.ref && !drain ==> p in picList
      ensures var i := Lowest(old(pics));
              if i < 0 then picture == null && picList == old(picList) && pics == old(pics)
              else picture == old(picList)[i] && pics == Output(old(pics), i, drain)
                   && picture.View() == old(pics)[i].(needed := false)
    {
      var index := GetLowestOutputNeededPicture();
      if index < 0 {
        return null;
      }
      picture := TakeOut(index, drain);
    }
  }
}
