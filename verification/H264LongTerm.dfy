/** Long-term frame indices: in a stream whose operations are legal no two stored frames share one and none exceeds the
    maximum in force. This is what lets operations 3 and 6 stop at the first frame that holds the index. */
module H264LongTerm {
  import opened Seqs
  import opened H264DpbSpec
  import opened H264Machine
  import opened H264Keep

  predicate LongDiffer(a: Pic, b: Pic) { IsLong(a) && IsLong(b) ==> a.longTermFrameIdx != b.longTermFrameIdx }

  function LongAtMost(max: int): Pic -> bool { (p: Pic) => IsLong(p) ==> p.longTermFrameIdx <= max }

  /** Indices are unique and in range. */
  ghost predicate IndicesOk(pics: seq<Pic>, max: int) { Keeps(pics, LongDiffer, LongAtMost(max)) }

  lemma LongLasts(max: int)
    ensures Lasting(LongDiffer, LongAtMost(max)) && AcceptsGaps(LongDiffer, LongAtMost(max))
  {
  }

  function UnmarkIdx(idx: int): Pic -> Pic { (p: Pic) => if LongWithIdx(idx)(p) then Unmark(p) else p }

  /** With unique indices, stopping at the first holder of an index frees every holder. */
  lemma FreeIdxFreesAll(pics: seq<Pic>, idx: int)
    requires Pairwise(pics, LongDiffer)
    ensures FreeIdx(pics, idx) == Map(pics, UnmarkIdx(idx))
  {
    var j := Find(pics, LongWithIdx(idx));
    forall k | 0 <= k < |pics|
      ensures FreeIdx(pics, idx)[k] == UnmarkIdx(idx)(pics[k])
    {
      if 0 <= j < k {
        assert LongDiffer(pics[j], pics[k]);
      }
    }
  }

  /** Without them it would not: two holders, one of which keeps its mark. */
  lemma FreeIdxNeedsUniqueness(pics: seq<Pic>, idx: int, i: nat, k: nat)
    requires i < k < |pics| && LongWithIdx(idx)(pics[i]) && LongWithIdx(idx)(pics[k])
    ensures IsLong(FreeIdx(pics, idx)[k]) && FreeIdx(pics, idx)[k].longTermFrameIdx == idx
  {
    assert !(Find(pics, LongWithIdx(idx)) < 0 || Find(pics, LongWithIdx(idx)) > i);
  }

  lemma UnmarkKeepsIndices(pics: seq<Pic>, i: nat, max: int)
    requires i < |pics| && IndicesOk(pics, max)
    ensures IndicesOk(pics[i := Unmark(pics[i])], max)
  {
    hide Keeps, Lasting;
    LongLasts(max);
    WeakerKeeps(pics[i := Unmark(pics[i])], pics, LongDiffer, LongAtMost(max));
  }

  ghost predicate NoneHolds(pics: seq<Pic>, idx: int) { forall i :: 0 <= i < |pics| ==> !LongWithIdx(idx)(pics[i]) }

  lemma FreeIdxKeepsIndices(pics: seq<Pic>, idx: int, max: int)
    requires IndicesOk(pics, max)
    ensures IndicesOk(FreeIdx(pics, idx), max) && NoneHolds(FreeIdx(pics, idx), idx)
  {
    FreeIdxFreesAll(pics, idx);
    LongLasts(max);
    WeakerKeeps(FreeIdx(pics, idx), pics, LongDiffer, LongAtMost(max));
  }

  lemma AssignKeepsIndices(pics: seq<Pic>, i: nat, idx: int, x: Pic, max: int)
    requires i < |pics| && IndicesOk(pics, max) && NoneHolds(pics, idx) && idx <= max
    ensures IndicesOk(pics[i := MakeLong(idx)(x)], max)
  {
    var r := pics[i := MakeLong(idx)(x)];
    forall a, b | 0 <= a < b < |r|
      ensures LongDiffer(r[a], r[b])
    {
      assert LongDiffer(pics[a], pics[b]);
      assert !LongWithIdx(idx)(pics[a]) && !LongWithIdx(idx)(pics[b]);
    }
  }

  lemma UnmarkAboveKeepsIndices(pics: seq<Pic>, wide: int, max: int)
    requires IndicesOk(pics, wide)
    ensures IndicesOk(Map(pics, UnmarkAbove(max)), max)
  {
    LongLasts(wide);
    WeakerKeeps(Map(pics, UnmarkAbove(max)), pics, LongDiffer, LongAtMost(wide));
  }

  lemma UnmarkAllIndices(pics: seq<Pic>, max: int)
    ensures IndicesOk(Map(pics, Unmark), max)
  {
  }

  // ---- The operations of one frame -----------------------------------------------------------------------

  /** Operations 3 and 6 assign indices within the maximum in force, and 6 comes last. */
  predicate LegalAt(m: Marking, ops: seq<Mmco>, k: nat)
    requires k < |ops|
  {
    && (ops[k].op in {3, 6} ==> ops[k].longTermFrameIdx <= ApplyTo(m, ops, k).maxLongTermFrameIdx)
    && (ops[k].op == 6 ==> k == |ops| - 1)
  }

  ghost predicate LegalOps(m: Marking, ops: seq<Mmco>) {
    forall k :: 0 <= k < |ops| ==> LegalAt(m, ops, k)
  }

  /** The stored frames are fine, and the current frame, if long-term, holds an index of its own. */
  ghost predicate MarkingOk(m: Marking) {
    && IndicesOk(m.pics, m.maxLongTermFrameIdx)
    && (IsLong(m.cur) ==> m.cur.longTermFrameIdx <= m.maxLongTermFrameIdx && NoneHolds(m.pics, m.cur.longTermFrameIdx))
  }

  lemma ApplyMmcoKeepsIndices(m: Marking, c: Mmco)
    requires IndicesOk(m.pics, m.maxLongTermFrameIdx) && !IsLong(m.cur)
    requires c.op in {3, 6} ==> c.longTermFrameIdx <= m.maxLongTermFrameIdx
    ensures MarkingOk(ApplyMmco(m, c)) && (c.op != 6 ==> !IsLong(ApplyMmco(m, c).cur))
  {
    hide IndicesOk, NoneHolds, Find, FreeIdx;
    var max := m.maxLongTermFrameIdx;
    match c.op
    case 1 =>
      var i := Find(m.pics, ShortWithPicNum(m.cur.picNum - (c.differenceOfPicNumsMinus1 + 1)));
      if i >= 0 { UnmarkKeepsIndices(m.pics, i, max); }
    case 2 =>
      var i := Find(m.pics, LongWithPicNum(c.longTermPicNum));
      if i >= 0 { UnmarkKeepsIndices(m.pics, i, max); }
    case 3 =>
      var i := Find(m.pics, ShortWithPicNum(m.cur.picNum - (c.differenceOfPicNumsMinus1 + 1)));
      if i >= 0 {
        FreeIdxKeepsIndices(m.pics, c.longTermFrameIdx, max);
        AssignKeepsIndices(FreeIdx(m.pics, c.longTermFrameIdx), i, c.longTermFrameIdx, m.pics[i], max);
      }
    case 4 => UnmarkAboveKeepsIndices(m.pics, max, c.maxLongTermFrameIdxPlus1 - 1);
    case 5 => UnmarkAllIndices(m.pics, -1);
    case 6 => FreeIdxKeepsIndices(m.pics, c.longTermFrameIdx, max);
    case _ =>
  }

  lemma {:induction false} ApplyToKeepsIndices(m: Marking, ops: seq<Mmco>, n: nat)
    requires n <= |ops| && IndicesOk(m.pics, m.maxLongTermFrameIdx) && !IsLong(m.cur) && LegalOps(m, ops)
    ensures MarkingOk(ApplyTo(m, ops, n)) && (n < |ops| ==> !IsLong(ApplyTo(m, ops, n).cur))
  {
    hide ApplyMmco, IndicesOk, NoneHolds;
    if n > 0 {
      assert LegalAt(m, ops, n - 1);
      ApplyToKeepsIndices(m, ops, n - 1);
      ApplyMmcoKeepsIndices(ApplyTo(m, ops, n - 1), ops[n - 1]);
    }
  }

  // ---- Runs ----------------------------------------------------------------------------------------------

  ghost predicate LegalSlice(st: State, s: Slice) {
    s.isRef && !s.idr && s.adaptive ==>
      LegalOps(Marking(st.pics, NewPic(s), false, st.maxLongTermFrameIdx), Effective(s.ops))
  }

  ghost predicate LegalRun(ss: seq<Slice>, cfg: Config)
    requires Numbered(ss, cfg)
  {
    ss == [] ||
    var before, s := ss[..|ss| - 1], ss[|ss| - 1];
    LegalRun(before, cfg) && LegalSlice(Start(Run(before, cfg), s, cfg).st, s)
  }

  lemma MarkedStateKeepsIndices(st: State, s: Slice, cfg: Config)
    requires IndicesOk(st.pics, st.maxLongTermFrameIdx) && LegalSlice(st, s)
    ensures MarkingOk(MarkedState(st, s, cfg))
  {
    hide Slide, ApplyTo, LegalOps, IndicesOk, Lasting;
    if s.isRef {
      if s.idr {
        UnmarkAllIndices(st.pics, 0);
        UnmarkAllIndices(st.pics, -1);
      } else if s.adaptive {
        var ops := Effective(s.ops);
        ApplyToKeepsIndices(Marking(st.pics, NewPic(s), false, st.maxLongTermFrameIdx), ops, |ops|);
      } else {
        SlideKeepsIndices(st.pics, MaxRefs(cfg), st.maxLongTermFrameIdx);
      }
    }
  }

  lemma SlideKeepsIndices(pics: seq<Pic>, limit: nat, max: int)
    requires IndicesOk(pics, max)
    ensures IndicesOk(Slide(pics, limit).pics, max)
  {
    hide Keeps, Lasting, AllWeaker, Slide;
    LongLasts(max);
    SlideWeaker(pics, limit);
    WeakerKeeps(Slide(pics, limit).pics, pics, LongDiffer, LongAtMost(max));
  }

  lemma CurrentJoins(m: Marking)
    requires MarkingOk(m)
    ensures var max, x := m.maxLongTermFrameIdx, Stored(m.cur);
            LongAtMost(max)(x) && Keeps(m.pics, LongDiffer, And(LongAtMost(max), LongDiffer, x))
  {
    var max, x := m.maxLongTermFrameIdx, Stored(m.cur);
    forall i | 0 <= i < |m.pics|
      ensures And(LongAtMost(max), LongDiffer, x)(m.pics[i])
    {
      if IsLong(m.cur) {
        assert !LongWithIdx(m.cur.longTermFrameIdx)(m.pics[i]);
      }
      assert LongAtMost(max)(m.pics[i]);
    }
  }

  lemma StepKeepsIndices(st: State, s: Slice, cfg: Config)
    requires ValidNumbers(st, s, cfg) && IndicesOk(st.pics, st.maxLongTermFrameIdx)
    requires LegalSlice(Start(st, s, cfg).st, s)
    ensures IndicesOk(Step(st, s, cfg).pics, Step(st, s, cfg).maxLongTermFrameIdx)
  {
    hide Start, Finish, MarkedState, Lasting, AcceptsGaps, MarkingOk, LegalSlice, Keeps;
    LongLasts(st.maxLongTermFrameIdx);
    StartKeeps(st, s, cfg, LongDiffer, LongAtMost(st.maxLongTermFrameIdx));
    StartSound(st, s, cfg);
    var g := Start(st, s, cfg);
    if g.ok {
      var m := MarkedState(g.st, s, cfg);
      MarkedStateKeepsIndices(g.st, s, cfg);
      CurrentJoins(m);
      LongLasts(m.maxLongTermFrameIdx);
      FinishSound(g.st, s, cfg);
      FinishKeeps(g.st, s, cfg, LongDiffer, LongAtMost(m.maxLongTermFrameIdx));
    }
  }

  /** Over any run of legal operations, long-term indices stay unique and within the maximum in force. */
  lemma {:induction false} RunKeepsIndices(ss: seq<Slice>, cfg: Config)
    requires Numbered(ss, cfg) && LegalRun(ss, cfg)
    ensures var r := Run(ss, cfg);
            && (forall i, j :: 0 <= i < j < |r.pics| ==> LongDiffer(r.pics[i], r.pics[j]))
            && (forall i :: 0 <= i < |r.pics| ==> LongAtMost(r.maxLongTermFrameIdx)(r.pics[i]))
            && IndicesOk(r.pics, r.maxLongTermFrameIdx)
  {
    hide Step, LegalSlice;
    if ss != [] {
      RunKeepsIndices(ss[..|ss| - 1], cfg);
      StepKeepsIndices(Run(ss[..|ss| - 1], cfg), ss[|ss| - 1], cfg);
    }
  }
}
