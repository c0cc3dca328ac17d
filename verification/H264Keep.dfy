/** Facts about the stored frames that survive a step of the H.264 decoding loop: h holds of every frame, rel of every
    two in list order. They survive whenever losing a reference mark, being output and being renumbered cannot
    break them. */
module H264Keep {
  import opened Seqs
  import opened H264DpbSpec
  import opened H264Machine

  /** a is what became of b after it was renumbered and perhaps lost its mark or was output. */
  predicate Weaker(a: Pic, b: Pic) {
    && a == b.(needed := a.needed, ref := a.ref, frameNumWrap := a.frameNumWrap, picNum := a.picNum,
               longTermPicNum := a.longTermPicNum)
    && (a.needed ==> b.needed)
    && (a.ref == b.ref || a.ref == Unused)
  }

  ghost predicate Lasting(rel: (Pic, Pic) -> bool, h: Pic -> bool) {
    && (forall a, b :: Weaker(a, b) && h(b) ==> h(a))
    && (forall a, b, c, d :: Weaker(a, b) && Weaker(c, d) && rel(b, d) ==> rel(a, c))
  }

  ghost predicate Each(pics: seq<Pic>, h: Pic -> bool) {
    forall i :: 0 <= i < |pics| ==> h(pics[i])
  }

  ghost predicate Keeps(pics: seq<Pic>, rel: (Pic, Pic) -> bool, h: Pic -> bool) {
    Pairwise(pics, rel) && Each(pics, h)
  }

  ghost predicate AllWeaker(a: seq<Pic>, b: seq<Pic>) {
    && |a| == |b|
    && forall i :: 0 <= i < |a| ==> Weaker(a[i], b[i])
  }

  lemma WeakerKeeps(a: seq<Pic>, b: seq<Pic>, rel: (Pic, Pic) -> bool, h: Pic -> bool)
    requires AllWeaker(a, b) && Lasting(rel, h) && Keeps(b, rel, h)
    ensures Keeps(a, rel, h)
  {
    forall i, j | 0 <= i < j < |a|
      ensures rel(a[i], a[j])
    {
      assert Weaker(a[i], b[i]) && Weaker(a[j], b[j]) && rel(b[i], b[j]);
    }
  }

  lemma RemoveKeeps(pics: seq<Pic>, i: nat, rel: (Pic, Pic) -> bool, h: Pic -> bool)
    requires i < |pics| && Keeps(pics, rel, h)
    ensures Keeps(RemoveAt(pics, i), rel, h)
  {
    var r := RemoveAt(pics, i);
    forall a, b | 0 <= a < b < |r|
      ensures rel(r[a], r[b])
    {
      assert rel(pics[if a < i then a else a + 1], pics[if b < i then b else b + 1]);
    }
  }

  lemma FilterKeeps(pics: seq<Pic>, p: Pic -> bool, rel: (Pic, Pic) -> bool, h: Pic -> bool)
    requires Keeps(pics, rel, h)
    ensures Keeps(Filter(pics, p), rel, h) && Each(Filter(pics, p), p)
  {
    FilterPairwise(pics, |pics|, p, rel);
    FilterMembers(pics, |pics|, p);
    forall i | 0 <= i < |Filter(pics, p)|
      ensures h(Filter(pics, p)[i]) && p(Filter(pics, p)[i])
    {
      assert Filter(pics, p)[i] in pics[..|pics|];
    }
  }

  lemma AppendKeeps(pics: seq<Pic>, x: Pic, rel: (Pic, Pic) -> bool, h: Pic -> bool)
    requires Keeps(pics, rel, h) && h(x) && forall i :: 0 <= i < |pics| ==> rel(pics[i], x)
    ensures Keeps(pics + [x], rel, h)
  {
  }

  lemma OutputKeeps(pics: seq<Pic>, i: nat, drain: bool, rel: (Pic, Pic) -> bool, h: Pic -> bool)
    requires i < |pics| && Lasting(rel, h) && Keeps(pics, rel, h)
    ensures Keeps(Output(pics, i, drain), rel, h)
  {
    var marked := pics[i := pics[i].(needed := false)];
    WeakerKeeps(marked, pics, rel, h);
    RemoveKeeps(marked, i, rel, h);
  }

  lemma {:induction false} BumpWhileKeeps(st: State, toInsert: Option<Pic>, mode: BumpMode, cfg: Config,
                                          rel: (Pic, Pic) -> bool, h: Pic -> bool)
    requires Lasting(rel, h) && Keeps(st.pics, rel, h)
    ensures Keeps(BumpWhile(st, toInsert, mode, cfg).pics, rel, h)
    decreases Count(st.pics, Waiting)
  {
    hide NeedsBump, Keeps, Lasting, Output;
    if NeedsBump(st.pics, cfg.limits, st.lastPoc, st.lastNonRef, toInsert, mode) && Lowest(st.pics) >= 0 {
      OutputKeeps(st.pics, Lowest(st.pics), false, rel, h);
      BumpWhileKeeps(BumpOnce(st, false, cfg), toInsert, mode, cfg, rel, h);
    }
  }

  lemma RenumberWeaker(pics: seq<Pic>, n: int, max: int)
    ensures AllWeaker(Map(pics, Renumber(n, max)), pics)
  {
  }

  lemma {:induction false} SlideWeaker(pics: seq<Pic>, max: nat)
    ensures AllWeaker(Slide(pics, max).pics, pics)
    decreases Count(pics, IsRef)
  {
    var i := LowestShortTo(pics, |pics|);
    if Count(pics, IsRef) >= max && i >= 0 {
      UnmarkCount(pics, i);
      SlideWeaker(pics[i := Unmark(pics[i])], max);
    }
  }

  /** What a gap leaves behind: the frames before it and the inferred ones. */
  ghost predicate AcceptsGaps(rel: (Pic, Pic) -> bool, h: Pic -> bool) {
    && (forall n, poc :: h(GapFrame(n, poc)))
    && (forall p, n, poc :: rel(p, GapFrame(n, poc)))
  }

  lemma GapStepKeeps(st: State, n: int, poc: int, cfg: Config, rel: (Pic, Pic) -> bool, h: Pic -> bool)
    requires Lasting(rel, h) && AcceptsGaps(rel, h) && Keeps(st.pics, rel, h)
    ensures Keeps(GapStep(st, n, poc, cfg).st.pics, rel, h)
  {
    hide Keeps, Lasting, Slide, BumpWhile, AllWeaker, Filter;
    var renumbered := Map(st.pics, Renumber(n, cfg.maxFrameNum));
    var slid := Slide(renumbered, MaxRefs(cfg));
    RenumberWeaker(st.pics, n, cfg.maxFrameNum);
    WeakerKeeps(renumbered, st.pics, rel, h);
    SlideWeaker(renumbered, MaxRefs(cfg));
    WeakerKeeps(slid.pics, renumbered, rel, h);
    FilterKeeps(slid.pics, InUse, rel, h);
    var cleaned := st.(pics := DeleteUnused(slid.pics));
    var frame := GapFrame(n, poc);
    BumpWhileKeeps(cleaned, Some(frame), NormalLatency, cfg, rel, h);
    assert Stored(frame) == frame;
    AppendKeeps(BumpWhile(cleaned, Some(frame), NormalLatency, cfg).pics, frame, rel, h);
  }

  lemma {:induction false} GapLoopKeeps(st: State, n: int, target: int, poc: int, cfg: Config,
                                        rel: (Pic, Pic) -> bool, h: Pic -> bool)
    requires 0 <= n < cfg.maxFrameNum && 0 <= target < cfg.maxFrameNum
    requires Lasting(rel, h) && AcceptsGaps(rel, h) && Keeps(st.pics, rel, h)
    ensures Keeps(GapLoop(st, n, target, poc, cfg).st.pics, rel, h)
    decreases Ahead(n, target, cfg.maxFrameNum)
  {
    hide GapStep, Keeps, Lasting, AcceptsGaps;
    if n != target {
      GapStepKeeps(st, n, poc, cfg, rel, h);
      var g := GapStep(st, n, poc, cfg);
      if g.ok {
        GapLoopKeeps(g.st, Next(n, cfg.maxFrameNum), target, poc, cfg, rel, h);
      }
    }
  }

  lemma StartKeeps(st: State, s: Slice, cfg: Config, rel: (Pic, Pic) -> bool, h: Pic -> bool)
    requires ValidNumbers(st, s, cfg)
    requires Lasting(rel, h) && AcceptsGaps(rel, h) && Keeps(st.pics, rel, h)
    ensures Keeps(Start(st, s, cfg).st.pics, rel, h)
  {
    hide GapLoop, Lasting, AcceptsGaps, AllWeaker, BumpAll;
    var st0 := if s.idr then st.(prevRefFrameNum := 0) else st;
    if IsGap(st0, s, cfg) {
      GapLoopKeeps(st0, Next(st0.prevRefFrameNum, cfg.maxFrameNum), s.frameNum, s.gapPoc, cfg, rel, h);
    }
    var g := HandleGap(st0, s, cfg);
    if g.ok {
      var flushed := if s.idr then [] else g.st.pics;
      assert Keeps(flushed, rel, h);
      RenumberWeaker(flushed, s.frameNum, cfg.maxFrameNum);
      WeakerKeeps(Map(flushed, Renumber(s.frameNum, cfg.maxFrameNum)), flushed, rel, h);
    }
  }

  function And(h: Pic -> bool, rel: (Pic, Pic) -> bool, x: Pic): Pic -> bool { (p: Pic) => h(p) && rel(p, x) }

  lemma AndLasts(rel: (Pic, Pic) -> bool, h: Pic -> bool, x: Pic)
    requires Lasting(rel, h)
    ensures Lasting(rel, And(h, rel, x))
  {
    assert Weaker(x, x);
  }

  /** The frame just decoded joins frames that already satisfy the invariant and go before it. */
  lemma InsertKeeps(st: State, cur: Pic, cfg: Config, rel: (Pic, Pic) -> bool, h: Pic -> bool)
    requires Lasting(rel, h) && Keeps(st.pics, rel, And(h, rel, Stored(cur))) && h(Stored(cur))
    ensures Keeps(Insert(st, cur, cfg).pics, rel, h)
  {
    hide BumpWhile, Lasting;
    AndLasts(rel, h, Stored(cur));
    BumpWhileKeeps(st, Some(cur), cfg.mode, cfg, rel, And(h, rel, Stored(cur)));
    var b := BumpWhile(st, Some(cur), cfg.mode, cfg);
    assert forall i :: 0 <= i < |b.pics| ==> And(h, rel, Stored(cur))(b.pics[i]);
    AppendKeeps(b.pics, Stored(cur), rel, h);
  }

  lemma FinishKeeps(st: State, s: Slice, cfg: Config, rel: (Pic, Pic) -> bool, h: Pic -> bool)
    requires Lasting(rel, h) && h(Stored(CurrentPic(st, s, cfg)))
    requires Keeps(MarkedState(st, s, cfg).pics, rel, And(h, rel, Stored(CurrentPic(st, s, cfg))))
    ensures Keeps(Finish(st, s, cfg).pics, rel, h)
  {
    hide MarkedState, Lasting, BumpWhile, BumpAll, Insert, Filter;
    var cur := CurrentPic(st, s, cfg);
    FilterKeeps(MarkedState(st, s, cfg).pics, InUse, rel, And(h, rel, Stored(cur)));
    InsertKeeps(Marked(st, s, cfg), cur, cfg, rel, h);
    BumpWhileKeeps(Insert(Marked(st, s, cfg), cur, cfg), None, cfg.mode, cfg, rel, h);
  }
}
