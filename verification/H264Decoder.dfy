/** The H.264 decoder object, for sequences of frames: gaps in frame_num, reference marking, bumping, and the delayed
    output queue. Its methods are proved to follow `H264Machine`. */
module H264Decoder {
  import opened Modulo
  import opened Seqs
  import opened H264DpbSpec
  import opened H264Machine
  import opened H264Dpb

  function NumberOf(p: Picture): nat { p.systemFrameNumber }

  function IdOf(p: Pic): nat { p.id }

  datatype Compliance = Auto | Strict | Normal | Flexible

  /** How eagerly to output: the user's choice, or by default only for live streams. */
  function BumpLevel(compliance: Compliance, isLive: bool, baseline: bool): BumpMode {
    match compliance
    case Strict => NormalLatency
    case Normal => LowLatency
    case Flexible => VeryLowLatency
    case Auto => if !isLive then NormalLatency else if baseline then VeryLowLatency else LowLatency
  }

  class Decoder {
    const dpb: Dpb
    // the active sequence parameter set
    var numRefFrames: nat
    var maxFrameNum: int
    var gapsAllowed: bool
    var baseline: bool
    // the user's settings
    var compliance: Compliance
    var isLive: bool
    var preferredOutputDelay: nat
    // decoding
    var maxLongTermFrameIdx: int
    var prevRefFrameNum: int
    var outputQueue: seq<Picture>
    var delivered: seq<Picture>  // the frames handed to the subclass, in order
    ghost var emitted: seq<Pic>
    ghost var finished: seq<Pic>
    ghost var discarded: seq<Pic>

    ghost predicate Valid()
      reads this, dpb, dpb.Repr
    {
      && dpb.Valid()
      && Map(delivered + outputQueue, NumberOf) == Map(emitted, IdOf)
    }

    ghost function Value(): State
      reads this, dpb
    {
      State(dpb.pics, dpb.lastOutputPoc, dpb.lastOutputNonRef, emitted, |outputQueue|, finished, discarded,
            maxLongTermFrameIdx, prevRefFrameNum)
    }

    ghost function Cfg(): Config
      reads this, dpb
    {
      Config(dpb.Lim(), numRefFrames, maxFrameNum, gapsAllowed, BumpLevel(compliance, isLive, baseline),
             isLive && compliance != Strict, preferredOutputDelay)
    }

    constructor (numRefFrames: nat, maxFrameNum: int, gapsAllowed: bool, baseline: bool, compliance: Compliance,
                 isLive: bool, delay: nat)
      ensures Valid() && fresh(dpb) && dpb.Repr == {}
      ensures Value() == Initial && outputQueue == [] && delivered == []
      ensures Cfg() == Config(Limits(0, 0), numRefFrames, maxFrameNum, gapsAllowed,
                              BumpLevel(compliance, isLive, baseline),
                              isLive && compliance != Strict, delay)
    {
      dpb := new Dpb();
      this.numRefFrames, this.maxFrameNum := numRefFrames, maxFrameNum;
      this.gapsAllowed, this.baseline := gapsAllowed, baseline;
      this.compliance, this.isLive, preferredOutputDelay := compliance, isLive, delay;
      maxLongTermFrameIdx, prevRefFrameNum := 0, 0;
      outputQueue, delivered := [], [];
      emitted, finished, discarded := [], [], [];
    }

    // ---- Output -----------------------------------------------------------------------------------------

    method DrainOutputQueue(num: nat)
      modifies `outputQueue, `delivered
      ensures delivered + outputQueue == old(delivered + outputQueue)
      ensures |outputQueue| == if old(|outputQueue|) <= num then old(|outputQueue|) else num
    {
      while |outputQueue| > num
        invariant delivered + outputQueue == old(delivered + outputQueue)
        invariant old(|outputQueue|) <= num ==> |outputQueue| == old(|outputQueue|)
        invariant old(|outputQueue|) > num ==> |outputQueue| >= num
      {
        ghost var all := delivered + outputQueue;
        delivered, outputQueue := delivered + [outputQueue[0]], outputQueue[1..];
        assert delivered + outputQueue == all;
      }
    }

    method DoOutputPicture(picture: Picture)
      requires Map(delivered + outputQueue, NumberOf) == Map(emitted, IdOf)
      modifies `outputQueue, `delivered, `emitted
      ensures Map(delivered + outputQueue, NumberOf) == Map(emitted, IdOf)
      ensures emitted == old(emitted) + [picture.View()]
      ensures |outputQueue| == if old(|outputQueue|) < preferredOutputDelay then old(|outputQueue|) + 1
                               else preferredOutputDelay
    {
      ghost var all := delivered + outputQueue;
      MapLast(all + [picture], NumberOf);
      MapLast(emitted + [picture.View()], IdOf);
      outputQueue, emitted := outputQueue + [picture], emitted + [picture.View()];
      assert delivered + outputQueue == all + [picture];
      assert (all + [picture])[..|all|] == all && emitted[..|emitted| - 1] == old(emitted);
      DrainOutputQueue(preferredOutputDelay);
    }

    /** One turn of a bumping loop. */
    method BumpAndOutput(drain: bool) returns (done: bool)
      requires Valid()
      modifies `outputQueue, `delivered, `emitted, dpb, dpb.Repr
      ensures Valid() && dpb.Repr == old(dpb.Repr) && Cfg() == old(Cfg())
      ensures done <==> Lowest(old(dpb.pics)) < 0
      ensures Value() == if done then old(Value()) else BumpOnce(old(Value()), drain, Cfg())
    {
      hide Count, Map;
      var picture := dpb.Bump(drain);
      if picture == null {
        return true;
      }
      DoOutputPicture(picture);
      done := false;
    }

    /** `_bump_dpb`: output frames while the decision asks for it and there is one to output. */
    method BumpDpb(level: BumpMode, current: Picture?)
      requires Valid() && current !in dpb.Repr
      modifies `outputQueue, `delivered, `emitted, dpb, dpb.Repr
      ensures Valid() && dpb.Repr == old(dpb.Repr) && Cfg() == old(Cfg())
      ensures Value() == BumpWhile(old(Value()), old(dpb.Inserting(current)), level, Cfg())
    {
      hide BumpWhile, NeedsBump, Shows, Injective, Map;
      ghost var toInsert := dpb.Inserting(current);
      var needed := dpb.NeedsBump(current, level);
      while needed
        invariant Valid() && dpb.Repr == old(dpb.Repr) && Cfg() == old(Cfg()) && dpb.Inserting(current) == toInsert
        invariant needed <==> NeedsBump(dpb.pics, dpb.Lim(), dpb.lastOutputPoc, dpb.lastOutputNonRef, toInsert, level)
        invariant BumpWhile(Value(), toInsert, level, Cfg()) == BumpWhile(old(Value()), toInsert, level, Cfg())
        decreases Count(dpb.pics, Waiting)
      {
        BumpWhileUnfolds(Value(), toInsert, level, Cfg());
        var done := BumpAndOutput(false);
        if done {
          break;
        }
        needed := dpb.NeedsBump(current, level);
      }
      BumpWhileUnfolds(Value(), toInsert, level, Cfg());
    }

    /** Everything waiting is output, everything queued delivered, and the buffer starts afresh. */
    method DrainInternal()
      requires Valid()
      modifies `outputQueue, `delivered, `emitted, dpb, dpb.Repr
      ensures Valid() && dpb.Repr == old(dpb.Repr) && Cfg() == old(Cfg())
      ensures Value() == Drain(old(Value()), Cfg())
      ensures outputQueue == [] && Map(delivered, NumberOf) == Map(emitted, IdOf)
    {
      hide BumpAll, Map;
      var done := false;
      while !done
        invariant Valid() && dpb.Repr == old(dpb.Repr) && Cfg() == old(Cfg())
        invariant BumpAll(Value(), Cfg()) == BumpAll(old(Value()), Cfg())
        invariant done ==> Lowest(dpb.pics) < 0
        decreases !done, Count(dpb.pics, Waiting)
      {
        BumpAllUnfolds(Value(), Cfg());
        done := BumpAndOutput(true);
      }
      BumpAllUnfolds(Value(), Cfg());
      DrainOutputQueue(0);
      assert delivered + outputQueue == delivered;
      dpb.Clear();
    }

    /** The loop of `ClearDpb`: the waiting frames are taken out in output order and released. */
    method ThrowAway() returns (ghost gone: seq<Pic>)
      requires dpb.Valid()
      modifies dpb, dpb.Repr
      ensures dpb.Valid() && dpb.Repr == old(dpb.Repr) && Cfg() == old(Cfg())
      ensures gone == BumpAll(old(Value()).(emitted := []), Cfg()).emitted
    {
      hide BumpAll, Count;
      ghost var before := Value().(emitted := []);
      ghost var st := before;
      var done := false;
      while !done
        invariant dpb.Valid() && dpb.Repr == old(dpb.Repr) && Cfg() == old(Cfg())
        invariant st.pics == dpb.pics && BumpAll(st, Cfg()) == BumpAll(before, Cfg())
        invariant done ==> Lowest(dpb.pics) < 0
        decreases !done, Count(dpb.pics, Waiting)
      {
        BumpAllUnfolds(st, Cfg());
        var picture := dpb.Bump(true);
        if picture == null {
          done := true;
        } else {
          st := BumpOnce(st, true, Cfg());
        }
      }
      BumpAllUnfolds(st, Cfg());
      gone := st.emitted;
    }

    /** `clear_dpb`, when not flushing: what waits in the buffer or in the queue is thrown away. */
    method ClearDpb()
      requires Valid()
      modifies `outputQueue, `emitted, `discarded, dpb, dpb.Repr
      ensures Valid() && dpb.Repr == old(dpb.Repr) && Cfg() == old(Cfg())
      ensures old(|outputQueue|) <= old(|emitted|)
      ensures Value() == Clear(old(Value()), Cfg())
    {
      hide BumpAll, Map, Shows, Injective, Count;
      QueueIsTail();
      ghost var k := |emitted| - |outputQueue|;
      ghost var gone := ThrowAway();
      discarded := discarded + emitted[k..] + gone;
      emitted, outputQueue := emitted[..k], [];
      dpb.Clear();
    }

    /** What is queued is what was output last. */
    lemma QueueIsTail()
      requires Map(delivered + outputQueue, NumberOf) == Map(emitted, IdOf)
      ensures |delivered| + |outputQueue| == |emitted|
      ensures Map(delivered + [], NumberOf) == Map(emitted[..|delivered|], IdOf)
    {
      assert |Map(delivered + outputQueue, NumberOf)| == |Map(emitted, IdOf)|;
      forall i | 0 <= i < |delivered|
        ensures NumberOf((delivered + [])[i]) == IdOf(emitted[..|delivered|][i])
      {
        assert Map(delivered + outputQueue, NumberOf)[i] == Map(emitted, IdOf)[i];
      }
    }

    // ---- Marking ------------------------------------------------------------------------------------------

    method UpdatePicNums(frameNum: int)
      requires dpb.Valid()
      modifies dpb`pics, dpb.Repr
      ensures dpb.Valid() && dpb.pics == Map(old(dpb.pics), Renumber(frameNum, maxFrameNum))
    {
      hide CountTo, Map;
      ghost var pics, f := dpb.pics, Renumber(frameNum, maxFrameNum);
      for i := 0 to |dpb.picList|
        invariant dpb.pics == pics
        invariant forall k :: 0 <= k < i ==> dpb.picList[k].View() == f(pics[k])
        invariant forall k :: i <= k < |dpb.picList| ==> dpb.picList[k].View() == pics[k]
      {
        UpdatePicNum(dpb.picList[i], frameNum);
      }
      CountSame(pics, Waiting, Map(pics, f), Waiting, |pics|);
      dpb.pics := Map(pics, f);
    }

    /** The loop's body, for a frame. */
    method UpdatePicNum(picture: Picture, frameNum: int)
      modifies picture
      ensures picture.View() == Renumber(frameNum, maxFrameNum)(old(picture.View()))
    {
      if picture.ref == LongTerm {
        picture.longTermPicNum := picture.longTermFrameIdx;
      } else if picture.ref == ShortTerm {
        picture.frameNumWrap := if picture.frameNum > frameNum then picture.frameNum - maxFrameNum
                                else picture.frameNum;
        picture.picNum := picture.frameNumWrap;
      }
    }

    method SlidingWindowPictureMarking() returns (ok: bool)
      requires dpb.Valid()
      modifies dpb`pics, dpb.Repr
      ensures dpb.Valid() && Slid(dpb.pics, ok) == Slide(old(dpb.pics), MaxRefs(Cfg()))
    {
      hide Shows, Injective, Count, Slide;
      var numRefPics := dpb.NumRefFrames();
      var maxNumRefFrames := if numRefFrames < 1 then 1 else numRefFrames;
      while numRefPics >= maxNumRefFrames
        invariant dpb.Valid() && numRefPics == Count(dpb.pics, IsRef)
        invariant Slide(dpb.pics, maxNumRefFrames) == Slide(old(dpb.pics), maxNumRefFrames)
        decreases numRefPics
      {
        SlideUnfolds(dpb.pics, maxNumRefFrames);
        var toUnmark := dpb.GetLowestFrameNumShortRef();
        ghost var index := LowestShortTo(dpb.pics, |dpb.pics|);
        if toUnmark == null {
          return false;
        }
        Found(index);
        UnmarkCount(dpb.pics, index);
        dpb.UnmarkFound(toUnmark, index);
        numRefPics := numRefPics - 1;
      }
      SlideUnfolds(dpb.pics, maxNumRefFrames);
      ok := true;
    }

    lemma Found(i: int)
      requires dpb.Valid() && 0 <= i < |dpb.pics|
      ensures |dpb.picList| == |dpb.pics| && dpb.picList[i] in dpb.Repr
    {
    }

    /** The buffer and the current frame as the marking process sees them. */
    ghost function MarkingOf(picture: Picture): Marking
      reads this, dpb, picture
    {
      Marking(dpb.pics, picture.View(), picture.memMgmt5, maxLongTermFrameIdx)
    }

    method HandleMemoryManagementOpt(picture: Picture, ops: seq<Mmco>)
      requires dpb.Valid() && picture !in dpb.Repr
      requires picture.picOrderCnt == Min(picture.topFieldOrderCnt, picture.bottomFieldOrderCnt)
      requires forall i :: 0 <= i < |ops| ==> ops[i].op <= 6
      modifies `maxLongTermFrameIdx, dpb`pics, dpb.Repr, picture
      ensures dpb.Valid()
      ensures MarkingOf(picture) == ApplyTo(old(MarkingOf(picture)), Effective(ops), |Effective(ops)|)
    {
      hide Shows, Injective, Count, ApplyMmco;
      ghost var m, e := MarkingOf(picture), Effective(ops);
      for i := 0 to |ops|
        invariant dpb.Valid() && i <= |e|
        invariant picture.picOrderCnt == Min(picture.topFieldOrderCnt, picture.bottomFieldOrderCnt)
        invariant forall j :: 0 <= j < i ==> !IsEnd(ops[j])
        invariant MarkingOf(picture) == ApplyTo(m, e, i)
      {
        if ops[i].op == 0 {
          assert IsEnd(ops[i]);
          return;
        }
        assert !IsEnd(ops[i]) && e[i] == ops[i];
        ghost var now := MarkingOf(picture);
        NewMaximum(now, ops[i]);
        if ops[i].op == 4 {
          maxLongTermFrameIdx := ops[i].maxLongTermFrameIdxPlus1 - 1;
        } else if ops[i].op == 5 {
          maxLongTermFrameIdx := -1;
        }
        var done := dpb.PerformMemoryManagementControlOperation(ops[i], picture, now);
      }
    }

    lemma NewMaximum(m: Marking, c: Mmco)
      ensures ApplyMmco(m, c).maxLongTermFrameIdx
           == if c.op == 4 then c.maxLongTermFrameIdxPlus1 - 1 else if c.op == 5 then -1 else m.maxLongTermFrameIdx
    {
    }

    method ReferencePictureMarking(picture: Picture, s: Slice)
      requires dpb.Valid() && picture !in dpb.Repr && picture.View() == NewPic(s) && s.isRef && !picture.memMgmt5
      requires picture.picOrderCnt == Min(picture.topFieldOrderCnt, picture.bottomFieldOrderCnt)
      requires forall i :: 0 <= i < |s.ops| ==> s.ops[i].op <= 6
      modifies `maxLongTermFrameIdx, dpb`pics, dpb.Repr, picture
      ensures dpb.Valid()
      ensures MarkingOf(picture) == MarkReferences(old(dpb.pics), old(maxLongTermFrameIdx), s, Cfg())
    {
      hide Shows, Injective, Count, ApplyTo, Slide;
      if s.idr {
        dpb.MarkAllNonRef();
        if s.longTermReference {
          picture.SetReference(LongTerm);
          picture.longTermFrameIdx := 0;
          maxLongTermFrameIdx := 0;
        } else {
          picture.SetReference(ShortTerm);
          maxLongTermFrameIdx := -1;
        }
      } else if s.adaptive {
        HandleMemoryManagementOpt(picture, s.ops);
      } else {
        var ok := SlidingWindowPictureMarking();
      }
    }

    // ---- Gaps in frame_num ----------------------------------------------------------------------------------

    /** One turn of the gap loop. */
    method InferFrame(n: int, poc: int) returns (ok: bool)
      requires Valid()
      modifies this, dpb, dpb.Repr
      ensures Valid() && Cfg() == old(Cfg()) && fresh(dpb.Repr - old(dpb.Repr))
      ensures Gapped(Value(), ok) == GapStep(old(Value()), n, poc, Cfg())
    {
      hide Shows, Injective, Count, Slide, BumpWhile, Map, Filter, Store, BumpLevel;
      var picture := new Picture(0, poc, poc, n, true, true);
      UpdatePicNums(n);
      ok := SlidingWindowPictureMarking();
      if !ok {
        return;
      }
      dpb.DeleteUnused();
      BumpDpb(NormalLatency, picture);
      AddPictureToDpb(picture);
    }

    method HandleFrameNumGap(s: Slice) returns (ok: bool)
      requires Valid() && ValidNumbers(Value(), s, Cfg())
      modifies this, dpb, dpb.Repr
      ensures Valid() && Cfg() == old(Cfg()) && fresh(dpb.Repr - old(dpb.Repr))
      ensures Gapped(Value(), ok) == HandleGap(old(Value()), s, Cfg())
    {
      hide Shows, Injective, Count, GapStep, GapLoop, Map;
      if prevRefFrameNum == s.frameNum {
        return true;
      }
      if (prevRefFrameNum + 1) % maxFrameNum == s.frameNum {
        return true;
      }
      var size := dpb.GetSize();
      if size == 0 {
        return true;
      }
      if !gapsAllowed {
        return true;
      }
      var n := (prevRefFrameNum + 1) % maxFrameNum;
      assert n == Next(prevRefFrameNum, maxFrameNum);
      ok := true;
      while n != s.frameNum
        invariant Valid() && Cfg() == old(Cfg()) && fresh(dpb.Repr - old(dpb.Repr))
        invariant 0 <= n < maxFrameNum
        invariant GapLoop(Value(), n, s.frameNum, s.gapPoc, Cfg()) == HandleGap(old(Value()), s, Cfg())
        decreases Ahead(n, s.frameNum, maxFrameNum)
      {
        GapLoopUnfolds(Value(), n, s.frameNum, s.gapPoc, Cfg());
        ok := InferFrame(n, s.gapPoc);
        if !ok {
          return;
        }
        n := (n + 1) % maxFrameNum;
      }
      GapLoopUnfolds(Value(), n, s.frameNum, s.gapPoc, Cfg());
    }

    // ---- One frame --------------------------------------------------------------------------------------------

    /** `start_current_picture`: the gap, the flush at an IDR frame, and the picture numbers. */
    method StartPicture(s: Slice) returns (ok: bool)
      requires Valid() && ValidNumbers(Value(), s, Cfg())
      modifies this, dpb, dpb.Repr
      ensures Valid() && Cfg() == old(Cfg()) && fresh(dpb.Repr - old(dpb.Repr))
      ensures Gapped(Value(), ok) == Start(old(Value()), s, Cfg())
    {
      hide Shows, Injective, Count, HandleGap, Drain, Clear, Map;
      if s.idr {
        prevRefFrameNum := 0;
      }
      ok := HandleFrameNumGap(s);
      if !ok {
        return;
      }
      if s.idr {
        if !s.noOutputOfPriorPics {
          DrainInternal();
        } else {
          ClearDpb();
        }
      }
      UpdatePicNums(s.frameNum);
    }

    /** The first half of `finish_picture`: marking, removal, and the drain of operation 5. */
    method MarkAndClean(picture: Picture, s: Slice)
      requires Valid() && picture !in dpb.Repr && picture.View() == NewPic(s) && !picture.memMgmt5
      requires picture.picOrderCnt == Min(picture.topFieldOrderCnt, picture.bottomFieldOrderCnt)
      requires forall i :: 0 <= i < |s.ops| ==> s.ops[i].op <= 6
      modifies `outputQueue, `delivered, `emitted, `finished, `maxLongTermFrameIdx, `prevRefFrameNum
      modifies dpb, dpb.Repr, picture
      ensures Valid() && Cfg() == old(Cfg()) && dpb.Repr == old(dpb.Repr)
      ensures Value() == Marked(old(Value()), s, Cfg()) && picture.View() == CurrentPic(old(Value()), s, Cfg())
    {
      hide Shows, Injective, Count, MarkReferences, Drain, Map, Filter, BumpLevel;
      if picture.ref != Unused {
        ReferencePictureMarking(picture, s);
        prevRefFrameNum := picture.frameNum;
      }
      dpb.DeleteUnused();
      finished := finished + [picture.View()];
      if picture.memMgmt5 {
        DrainInternal();
      }
    }

    method AddPictureToDpb(picture: Picture)
      requires Valid() && picture !in dpb.Repr
      modifies dpb, picture`neededForOutput
      ensures Valid() && Cfg() == old(Cfg()) && dpb.Repr == old(dpb.Repr) + {picture}
      ensures Value() == Store(old(Value()), old(picture.View()))
    {
      hide Shows, Injective, Count, Map, BumpLevel;
      dpb.Add(picture);
    }

    method OutputPictureDirectly(picture: Picture)
      requires Valid() && picture !in dpb.Repr
      modifies `outputQueue, `delivered, `emitted, dpb
      ensures Valid() && Cfg() == old(Cfg()) && dpb.Repr == old(dpb.Repr)
      ensures Value() == Emit(old(Value()), picture.View(), Cfg())
    {
      hide Shows, Injective, Count, Map, BumpLevel;
      dpb.SetLastOutput(picture);
      DoOutputPicture(picture);
    }

    /** The second half: bump, then store the frame or output it directly. */
    method InsertPicture(picture: Picture, level: BumpMode)
      requires Valid() && picture !in dpb.Repr && level == Cfg().mode
      modifies `outputQueue, `delivered, `emitted, dpb, dpb.Repr, picture`neededForOutput
      ensures Valid() && Cfg() == old(Cfg()) && dpb.Repr <= old(dpb.Repr) + {picture}
      ensures Value() == Insert(old(Value()), old(picture.View()), Cfg())
    {
      hide Shows, Injective, Count, BumpWhile, Map, NeedsBump, BumpLevel, Store, Emit;
      BumpDpb(level, picture);
      var empty := dpb.HasEmptyFrameBuffer();
      if picture.ref != Unused || empty {
        AddPictureToDpb(picture);
      } else {
        OutputPictureDirectly(picture);
      }
    }

    /** `finish_picture`. */
    method FinishPicture(picture: Picture, s: Slice)
      requires Valid() && picture !in dpb.Repr && picture.View() == NewPic(s) && !picture.memMgmt5
      requires picture.picOrderCnt == Min(picture.topFieldOrderCnt, picture.bottomFieldOrderCnt)
      requires forall i :: 0 <= i < |s.ops| ==> s.ops[i].op <= 6
      modifies this, dpb, dpb.Repr, picture
      ensures Valid() && Cfg() == old(Cfg()) && dpb.Repr <= old(dpb.Repr) + {picture}
      ensures Value() == Finish(old(Value()), s, Cfg())
    {
      hide Shows, Injective, Count, Marked, MarkedState, BumpWhile, Insert, Map;
      var level := BumpLevel(compliance, isLive, baseline);
      MarkAndClean(picture, s);
      InsertPicture(picture, level);
      if isLive && compliance != Strict {
        BumpDpb(level, null);
      }
    }
  }
}
