/** Output order of a coded video sequence of H.264: exactly when a frame may leave so that no later frame of a stream
    that keeps num_reorder_frames precedes it, what follows for whole sequences, and when the decoder obeys. */
module H264Order {
  import opened Seqs
  import opened H264DpbSpec
  import opened H264Machine
  import opened H264Marking
  import opened H264Run
  import opened H264Reorder

  function PocBelow(c: int): Pic -> bool { (p: Pic) => p.poc < c }

  function PocIs(c: int): Pic -> bool { (p: Pic) => p.poc == c }

  /** Frames that end up at order count c. */
  function SliceIs(c: int): Slice -> bool { (s: Slice) => FinalPoc(s) == c }

  // ---- When a frame may leave ---------------------------------------------------------------------------

  /** More frames of the sequence than may be reordered, from its beginning at b through frame k, are at or after this
      order count. */
  predicate Covered(ss: seq<Slice>, b: nat, k: nat, poc: int, reorder: nat)
    requires b <= k < |ss|
  {
    Count(ss[b..k + 1], SliceFrom(poc)) > reorder
  }

  lemma {:induction false} CoveredLonger(ss: seq<Slice>, b: nat, k: nat, j: nat, poc: int, reorder: nat)
    requires b <= k <= j < |ss| && Covered(ss, b, k, poc, reorder)
    ensures Covered(ss, b, j, poc, reorder)
  {
    CountGrows(ss, b, k + 1, j + 1, SliceFrom(poc));
  }

  /** No frame from k on that keeps the bound precedes a covered order count. */
  lemma CoveredIsSafe(ss: seq<Slice>, b: nat, k: nat, j: nat, poc: int, reorder: nat)
    requires b <= k <= j < |ss| && Covered(ss, b, k, poc, reorder) && InTime(ss, b, j, reorder)
    ensures FinalPoc(ss[j]) >= poc
  {
    if FinalPoc(ss[j]) < poc {
      if j == k {
        assert ss[b..k + 1] == ss[b..k] + [ss[k]];
        CountAppend(ss[b..k], ss[k], SliceFrom(poc));
      } else {
        CountGrows(ss, b, k + 1, j, SliceFrom(poc));
      }
      CountMonotone(ss[b..j], SliceFrom(poc), SliceFrom(FinalPoc(ss[j]) + 1), j - b);
      assert false;
    }
  }

  /** And being covered is exactly that: whatever frame the stream may send next follows the one that left. */
  lemma CoveredIsExact(ss: seq<Slice>, b: nat, k: nat, poc: int, reorder: nat)
    requires b <= k < |ss|
    ensures Covered(ss, b, k, poc, reorder)
       <==> forall s: Slice :: InTime(ss[..k + 1] + [s], b, k + 1, reorder) ==> FinalPoc(s) >= poc
  {
    forall s: Slice | Covered(ss, b, k, poc, reorder) && InTime(ss[..k + 1] + [s], b, k + 1, reorder)
      ensures FinalPoc(s) >= poc
    {
      var longer := ss[..k + 1] + [s];
      assert longer[b..k + 1] == ss[b..k + 1];
      CoveredIsSafe(longer, b, k, k + 1, poc, reorder);
    }
    if !Covered(ss, b, k, poc, reorder) {
      var s := Slice(0, poc - 1, 0, false, false, false, false, false, [], 0);
      assert (ss[..k + 1] + [s])[b..k + 1] == ss[b..k + 1];
      assert InTime(ss[..k + 1] + [s], b, k + 1, reorder) && FinalPoc(s) < poc;
    }
  }

  // ---- States of a run ------------------------------------------------------------------------------------

  ghost predicate Within(ss: seq<Slice>, k: nat, cfg: Config) { Numbered(ss, cfg) && k < |ss| }

  /** The state when frame k has been started, and marked. */
  ghost function StartedAt(ss: seq<Slice>, k: nat, cfg: Config): State
    requires Within(ss, k, cfg)
  {
    Start(Run(ss[..k], cfg), ss[k], cfg).st
  }

  ghost function MarkedAt(ss: seq<Slice>, k: nat, cfg: Config): State
    requires Within(ss, k, cfg)
  {
    Marked(StartedAt(ss, k, cfg), ss[k], cfg)
  }

  /** What was out before frame k; a sequence counts from where its first frame has flushed what was before. */
  ghost function OutBefore(ss: seq<Slice>, b: nat, k: nat, cfg: Config): seq<Pic>
    requires Within(ss, k, cfg)
  {
    if k == b then MarkedAt(ss, b, cfg).emitted else Run(ss[..k], cfg).emitted
  }

  /** Everything that leaves while frame k is decoded, by whatever rule, before a gap or directly, is covered. */
  ghost predicate Timely(ss: seq<Slice>, b: nat, k: nat, cfg: Config)
    requires Within(ss, k, cfg) && b <= k
  {
    var before, after := OutBefore(ss, b, k, cfg), Run(ss[..k + 1], cfg).emitted;
    forall i :: |before| <= i < |after| ==> Covered(ss, b, k, after[i].poc, cfg.limits.maxNumReorderFrames)
  }

  /** Frames b to e - 1 are one sequence that keeps num_reorder_frames. */
  ghost predicate Bounded(ss: seq<Slice>, b: nat, e: nat, cfg: Config) {
    && Numbered(ss, cfg) && b < e <= |ss| && SameSequence(ss, b, e - 1, cfg)
    && forall j :: b <= j < e ==> InTime(ss, b, j, cfg.limits.maxNumReorderFrames)
  }

  ghost predicate AllTimely(ss: seq<Slice>, b: nat, e: nat, cfg: Config)
    requires Numbered(ss, cfg) && e <= |ss|
  {
    forall k :: b <= k < e ==> Timely(ss, b, k, cfg)
  }

  // ---- Sorted output ----------------------------------------------------------------------------------------

  function Last(st: State): Pic
    requires st.emitted != []
  {
    st.emitted[|st.emitted| - 1]
  }

  /** What was output after base is in order, and before all that waits. */
  ghost predicate Sorted(st: State, base: seq<Pic>) {
    && base <= st.emitted && NonDecreasing(st.emitted[|base|..])
    && (|st.emitted| > |base| ==> WaitingFrom(st.pics, Last(st).poc))
  }

  lemma NothingOutput(st: State)
    ensures Sorted(st, st.emitted)
  {
    assert st.emitted[|st.emitted|..] == [];
  }

  lemma EmitSorted(st: State, p: Pic, pics: seq<Pic>, cfg: Config, base: seq<Pic>)
    requires Sorted(st, base) && WaitingFrom(pics, p.poc) && (|st.emitted| > |base| ==> Last(st).poc <= p.poc)
    ensures Sorted(Emit(st.(pics := pics), p, cfg), base)
  {
    var r := Emit(st.(pics := pics), p, cfg);
    assert r.emitted[|base|..] == st.emitted[|base|..] + [p];
    if |st.emitted| > |base| {
      assert st.emitted[|base|..][|st.emitted| - |base| - 1] == Last(st);
    }
  }

  lemma BumpOnceSorted(st: State, drain: bool, cfg: Config, base: seq<Pic>)
    requires Lowest(st.pics) >= 0 && Sorted(st, base)
    ensures Sorted(BumpOnce(st, drain, cfg), base)
  {
    var i := Lowest(st.pics);
    EmitSorted(st, st.pics[i].(needed := false), Output(st.pics, i, drain), cfg, base);
  }

  lemma {:induction false} BumpWhileSorted(st: State, toInsert: Option<Pic>, mode: BumpMode, cfg: Config,
                                           base: seq<Pic>)
    requires Sorted(st, base)
    ensures Sorted(BumpWhile(st, toInsert, mode, cfg), base)
    decreases Count(st.pics, Waiting)
  {
    hide NeedsBump, BumpOnce, Sorted;
    if NeedsBump(st.pics, cfg.limits, st.lastPoc, st.lastNonRef, toInsert, mode) && Lowest(st.pics) >= 0 {
      BumpOnceSorted(st, false, cfg, base);
      BumpWhileSorted(BumpOnce(st, false, cfg), toInsert, mode, cfg, base);
    }
  }

  lemma {:induction false} BumpWhileAppends(st: State, toInsert: Option<Pic>, mode: BumpMode, cfg: Config)
    ensures st.emitted <= BumpWhile(st, toInsert, mode, cfg).emitted
    ensures BumpWhile(st, toInsert, mode, cfg).discarded == st.discarded
    decreases Count(st.pics, Waiting)
  {
    hide NeedsBump;
    if NeedsBump(st.pics, cfg.limits, st.lastPoc, st.lastNonRef, toInsert, mode) && Lowest(st.pics) >= 0 {
      BumpWhileAppends(BumpOnce(st, false, cfg), toInsert, mode, cfg);
    }
  }

  lemma WaitingFromIsCount(pics: seq<Pic>, c: int)
    ensures WaitingFrom(pics, c) <==> Count(pics, WaitingAnd(PocBelow(c))) == 0
  {
    CountAll(pics, WaitingAnd(PocBelow(c)), |pics|);
    if Count(pics, WaitingAnd(PocBelow(c))) == 0 {
      assert forall i :: 0 <= i < |pics| ==> !WaitingAnd(PocBelow(c))(pics[i]);
    }
    if WaitingFrom(pics, c) {
      NoneBelow(pics, WaitingAnd(PocBelow(c)), |pics|);
    }
  }

  lemma {:induction false} NoneBelow(pics: seq<Pic>, q: Pic -> bool, n: nat)
    requires n <= |pics| && forall i :: 0 <= i < n ==> !q(pics[i])
    ensures CountTo(pics, n, q) == 0
  {
    if n > 0 {
      NoneBelow(pics, q, n - 1);
    }
  }

  /** Output order does not see renumbering, marking and removal. */
  lemma AlikeSorted(st: State, a: seq<Pic>, base: seq<Pic>)
    requires Sorted(st, base) && Alike(st.pics, a)
    ensures Sorted(st.(pics := a), base) && Sorted(st.(pics := DeleteUnused(a)), base)
  {
    hide Alike, Filter, WaitingFrom;
    if |st.emitted| > |base| {
      var c := Last(st).poc;
      WaitingFromIsCount(st.pics, c);
      AlikeCount(st.pics, a, PocBelow(c));
      WaitingFromIsCount(a, c);
      WaitingFromIsCount(DeleteUnused(a), c);
    }
  }

  lemma StoreSorted(st: State, cur: Pic, base: seq<Pic>)
    requires Sorted(st, base) && (|st.emitted| > |base| && !cur.nonexisting ==> cur.poc >= Last(st).poc)
    ensures Sorted(Store(st, cur), base)
  {
  }

  lemma GapStepSorted(st: State, n: int, poc: int, cfg: Config, base: seq<Pic>)
    requires Sorted(st, base)
    ensures var g := GapStep(st, n, poc, cfg).st;
            Sorted(g, base) && st.emitted <= g.emitted && g.discarded == st.discarded
  {
    hide BumpWhile, Slide, Sorted, Alike, Filter;
    var renumbered, frame := Map(st.pics, Renumber(n, cfg.maxFrameNum)), GapFrame(n, poc);
    var slid := Slide(renumbered, MaxRefs(cfg));
    MapAlike(st.pics, Renumber(n, cfg.maxFrameNum));
    SlideAlike(renumbered, MaxRefs(cfg));
    AlikeSorted(st, renumbered, base);
    AlikeSorted(st.(pics := renumbered), slid.pics, base);
    var cleaned := st.(pics := DeleteUnused(slid.pics));
    BumpWhileSorted(cleaned, Some(frame), NormalLatency, cfg, base);
    BumpWhileAppends(cleaned, Some(frame), NormalLatency, cfg);
    StoreSorted(BumpWhile(cleaned, Some(frame), NormalLatency, cfg), frame, base);
  }

  lemma {:induction false} GapLoopSorted(st: State, n: int, target: int, poc: int, cfg: Config, base: seq<Pic>)
    requires 0 <= n < cfg.maxFrameNum && 0 <= target < cfg.maxFrameNum && Sorted(st, base)
    ensures var g := GapLoop(st, n, target, poc, cfg).st;
            Sorted(g, base) && st.emitted <= g.emitted && g.discarded == st.discarded
    decreases Ahead(n, target, cfg.maxFrameNum)
  {
    hide GapStep, Sorted;
    if n != target {
      GapStepSorted(st, n, poc, cfg, base);
      var g := GapStep(st, n, poc, cfg);
      if g.ok {
        GapLoopSorted(g.st, Next(n, cfg.maxFrameNum), target, poc, cfg, base);
      }
    }
  }

  lemma StartSorted(st: State, s: Slice, cfg: Config, base: seq<Pic>)
    requires ValidNumbers(st, s, cfg) && !s.idr && Sorted(st, base)
    ensures var g := Start(st, s, cfg).st;
            Sorted(g, base) && st.emitted <= g.emitted && g.discarded == st.discarded
  {
    hide GapLoop, Sorted, IsGap, Alike, Drain, Clear;
    if IsGap(st, s, cfg) {
      GapLoopSorted(st, Next(st.prevRefFrameNum, cfg.maxFrameNum), s.frameNum, s.gapPoc, cfg, base);
    }
    var g := HandleGap(st, s, cfg);
    if g.ok {
      MapAlike(g.st.pics, Renumber(s.frameNum, cfg.maxFrameNum));
      AlikeSorted(g.st, Map(g.st.pics, Renumber(s.frameNum, cfg.maxFrameNum)), base);
    }
  }

  lemma MarkedSorted(st: State, s: Slice, cfg: Config, base: seq<Pic>)
    requires !Resets(s) && Sorted(st, base)
    ensures Sorted(Marked(st, s, cfg), base) && Marked(st, s, cfg).emitted == st.emitted
  {
    hide MarkedState, Sorted, Alike, Filter, Drain, Resets;
    CurrentNumbers(st, s, cfg);
    MarkedStateAlike(st, s, cfg);
    AlikeSorted(st, MarkedState(st, s, cfg).pics, base);
    OnlyPicsMatter(st.(pics := DeleteUnused(MarkedState(st, s, cfg).pics)), Marked(st, s, cfg), base);
  }

  lemma OnlyPicsMatter(a: State, b: State, base: seq<Pic>)
    requires Sorted(a, base) && b.pics == a.pics && b.emitted == a.emitted
    ensures Sorted(b, base)
  {
  }

  lemma InsertSorted(st: State, cur: Pic, cfg: Config, base: seq<Pic>)
    requires Sorted(st, base) && cur.refPic == IsRef(cur)
    requires var b := BumpWhile(st, Some(cur), cfg.mode, cfg);
             |b.emitted| > |base| ==> Last(b).poc <= cur.poc
    ensures Sorted(Insert(st, cur, cfg), base)
  {
    hide BumpWhile, Sorted, WaitingFrom;
    var b := BumpWhile(st, Some(cur), cfg.mode, cfg);
    BumpWhileSorted(st, Some(cur), cfg.mode, cfg, base);
    if cur.ref != Unused || HasEmpty(b.pics, cfg.limits) {
      StoreSorted(b, cur, base);
    } else {
      NotAfterWaiting(st, cur, cfg);
      EmitSorted(b, cur, b.pics, cfg, base);
    }
  }

  lemma NotAfterWaiting(st: State, cur: Pic, cfg: Config)
    requires !cur.refPic
    ensures var b := BumpWhile(st, Some(cur), cfg.mode, cfg);
            !HasEmpty(b.pics, cfg.limits) ==> WaitingFrom(b.pics, cur.poc)
  {
    BumpWhileStops(st, Some(cur), cfg.mode, cfg);
  }

  lemma InsertAppends(st: State, cur: Pic, cfg: Config)
    ensures st.emitted <= BumpWhile(st, Some(cur), cfg.mode, cfg).emitted <= Insert(st, cur, cfg).emitted
    ensures Insert(st, cur, cfg).discarded == st.discarded
  {
    hide BumpWhile;
    BumpWhileAppends(st, Some(cur), cfg.mode, cfg);
  }

  /** Storing, and the extra round of a live stream. */
  ghost function Stepped(t: State, cur: Pic, cfg: Config): State {
    var r := Insert(t, cur, cfg);
    if cfg.liveBump then BumpWhile(r, None, cfg.mode, cfg) else r
  }

  lemma SteppedSorted(t: State, cur: Pic, cfg: Config, base: seq<Pic>)
    requires Sorted(t, base) && cur.refPic == IsRef(cur)
    requires |t.emitted| > |base| ==> Last(t).poc <= cur.poc
    requires var out := Stepped(t, cur, cfg).emitted;
             forall i :: |t.emitted| <= i < |out| ==> out[i].poc <= cur.poc
    ensures Sorted(Stepped(t, cur, cfg), base) && t.emitted <= Stepped(t, cur, cfg).emitted
  {
    hide BumpWhile, Sorted;
    var b, r := BumpWhile(t, Some(cur), cfg.mode, cfg), Insert(t, cur, cfg);
    InsertAppends(t, cur, cfg);
    BumpWhileAppends(r, None, cfg.mode, cfg);
    assert b.emitted <= Stepped(t, cur, cfg).emitted;
    InsertSorted(t, cur, cfg, base);
    BumpWhileSorted(r, None, cfg.mode, cfg, base);
  }

  // ---- One frame of a sequence ------------------------------------------------------------------------------

  lemma RunNext(ss: seq<Slice>, k: nat, cfg: Config)
    requires Within(ss, k, cfg)
    ensures Run(ss[..k + 1], cfg)
         == if Start(Run(ss[..k], cfg), ss[k], cfg).ok
            then Stepped(MarkedAt(ss, k, cfg), CurrentPic(StartedAt(ss, k, cfg), ss[k], cfg), cfg)
            else StartedAt(ss, k, cfg)
  {
    hide Start, Marked, Insert, BumpWhile, CurrentPic;
    assert ss[..k + 1][..k] == ss[..k];
  }

  /** What is out follows the frames still to come: it is covered. */
  ghost predicate LastCovered(st: State, base: seq<Pic>, ss: seq<Slice>, b: nat, k: nat, reorder: nat)
    requires b <= k < |ss|
  {
    |st.emitted| > |base| ==> Covered(ss, b, k, Last(st).poc, reorder)
  }

  lemma FrameSorted(ss: seq<Slice>, b: nat, e: nat, k: nat, cfg: Config, base: seq<Pic>)
    requires Bounded(ss, b, e, cfg) && b <= k < e && Timely(ss, b, k, cfg)
    requires Sorted(MarkedAt(ss, k, cfg), base) && Start(Run(ss[..k], cfg), ss[k], cfg).ok
    requires OutBefore(ss, b, k, cfg) <= MarkedAt(ss, k, cfg).emitted && base <= OutBefore(ss, b, k, cfg)
    requires |OutBefore(ss, b, k, cfg)| > |base| ==>
               OutBefore(ss, b, k, cfg)[|OutBefore(ss, b, k, cfg)| - 1].poc <= FinalPoc(ss[k])
    ensures Sorted(Run(ss[..k + 1], cfg), base)
    ensures MarkedAt(ss, k, cfg).emitted <= Run(ss[..k + 1], cfg).emitted
  {
    hide Sorted, Run, InTime, CurrentPic, Stepped, MarkedAt, OutBefore, Covered, SameSequence, FinalPoc;
    var t, g, before := MarkedAt(ss, k, cfg), StartedAt(ss, k, cfg), OutBefore(ss, b, k, cfg);
    var r := cfg.limits.maxNumReorderFrames;
    var cur := CurrentPic(g, ss[k], cfg);
    RunNext(ss, k, cfg);
    CurrentNumbers(g, ss[k], cfg);
    CurrentKeeps(g, ss[k], cfg);
    var out := Stepped(t, cur, cfg).emitted;
    SteppedAppends(t, cur, cfg);
    assert InTime(ss, b, k, r);
    forall i | |before| <= i < |out|
      ensures out[i].poc <= cur.poc
    {
      CoveredIsSafe(ss, b, k, k, out[i].poc, r);
    }
    SteppedSorted(t, cur, cfg, base);
  }

  lemma SteppedAppends(t: State, cur: Pic, cfg: Config)
    ensures t.emitted <= Stepped(t, cur, cfg).emitted && Stepped(t, cur, cfg).discarded == t.discarded
  {
    hide BumpWhile, Insert;
    InsertAppends(t, cur, cfg);
    BumpWhileAppends(Insert(t, cur, cfg), None, cfg.mode, cfg);
  }

  /** The first frame of a sequence is decoded. */
  lemma FirstIsDecoded(ss: seq<Slice>, b: nat, cfg: Config)
    requires Within(ss, b, cfg) && Begins(ss, b, cfg)
    ensures Start(Run(ss[..b], cfg), ss[b], cfg).ok
  {
    hide Start, Run;
    if b == 0 {
      RunOfNone(ss, cfg);
      StartOnEmpty(Run(ss[..0], cfg), ss[0], cfg);
    } else {
      StartNoGrowth(Run(ss[..b], cfg), ss[b], cfg, PocIs(0));
    }
  }

  lemma StartOnEmpty(st: State, s: Slice, cfg: Config)
    requires ValidNumbers(st, s, cfg) && st.pics == []
    ensures Start(st, s, cfg).ok
  {
  }

  /** What was covered stays covered, and what has just left is. */
  lemma LastStaysCovered(ss: seq<Slice>, b: nat, k: nat, cfg: Config, base: seq<Pic>)
    requires Within(ss, k, cfg) && b <= k && Timely(ss, b, k, cfg)
    requires base <= OutBefore(ss, b, k, cfg) <= Run(ss[..k + 1], cfg).emitted
    requires k > b ==> LastCovered(Run(ss[..k], cfg), base, ss, b, k - 1, cfg.limits.maxNumReorderFrames)
    requires k == b ==> OutBefore(ss, b, k, cfg) == base
    ensures LastCovered(Run(ss[..k + 1], cfg), base, ss, b, k, cfg.limits.maxNumReorderFrames)
  {
    hide Run, Covered, MarkedAt;
    var before, out := OutBefore(ss, b, k, cfg), Run(ss[..k + 1], cfg).emitted;
    if |out| == |before| > |base| {
      assert out == before;
      CoveredLonger(ss, b, k - 1, k, before[|before| - 1].poc, cfg.limits.maxNumReorderFrames);
    }
  }

  /** After every frame: what the sequence has output is in order, and covered. */
  lemma {:induction false} RunSorted(ss: seq<Slice>, b: nat, e: nat, k: nat, cfg: Config)
    requires Bounded(ss, b, e, cfg) && AllTimely(ss, b, e, cfg) && b < k <= e
    ensures var base, st := MarkedAt(ss, b, cfg).emitted, Run(ss[..k], cfg);
            Sorted(st, base) && LastCovered(st, base, ss, b, k - 1, cfg.limits.maxNumReorderFrames)
  {
    hide Sorted, Run, InTime, Covered, Start, Marked, Stepped, CurrentPic, FinalPoc;
    var base, i := MarkedAt(ss, b, cfg).emitted, k - 1;
    assert Timely(ss, b, i, cfg);
    RunNext(ss, i, cfg);
    if i == b {
      FirstIsDecoded(ss, b, cfg);
      NothingOutput(MarkedAt(ss, b, cfg));
      FrameSorted(ss, b, e, b, cfg, base);
    } else {
      RunSorted(ss, b, e, i, cfg);
      SortedExtends(Run(ss[..i], cfg), base);
      StartSorted(Run(ss[..i], cfg), ss[i], cfg, base);
      MarkedSorted(StartedAt(ss, i, cfg), ss[i], cfg, base);
      if Start(Run(ss[..i], cfg), ss[i], cfg).ok {
        LastIsBefore(ss, b, e, i, cfg, base);
        FrameSorted(ss, b, e, i, cfg, base);
      }
    }
    LastStaysCovered(ss, b, i, cfg, base);
  }

  lemma SortedExtends(st: State, base: seq<Pic>)
    requires Sorted(st, base)
    ensures base <= st.emitted
  {
  }

  lemma LastIsBefore(ss: seq<Slice>, b: nat, e: nat, k: nat, cfg: Config, base: seq<Pic>)
    requires Bounded(ss, b, e, cfg) && b < k < e
    requires LastCovered(Run(ss[..k], cfg), base, ss, b, k - 1, cfg.limits.maxNumReorderFrames)
    ensures var out := OutBefore(ss, b, k, cfg);
            |out| > |base| ==> out[|out| - 1].poc <= FinalPoc(ss[k])
  {
    hide Run, Covered, InTime, SameSequence;
    var out, r := Run(ss[..k], cfg).emitted, cfg.limits.maxNumReorderFrames;
    assert InTime(ss, b, k, r);
    if |out| > |base| {
      CoveredIsSafe(ss, b, k - 1, k, out[|out| - 1].poc, r);
    }
  }

  // ---- Nothing is missing ----------------------------------------------------------------------------------

  /** Every frame of the stretch is decoded: no gap before it failed. */
  ghost predicate Decoded(ss: seq<Slice>, b: nat, e: nat, cfg: Config)
    requires Numbered(ss, cfg) && e <= |ss|
  {
    forall k :: b <= k < e ==> Start(Run(ss[..k], cfg), ss[k], cfg).ok
  }

  lemma {:induction false} BumpAllAppends(st: State, cfg: Config)
    ensures st.emitted <= BumpAll(st, cfg).emitted && BumpAll(st, cfg).discarded == st.discarded
    decreases Count(st.pics, Waiting)
  {
    if Lowest(st.pics) >= 0 {
      BumpAllAppends(BumpOnce(st, true, cfg), cfg);
    }
  }

  /** Only operation 5 outputs while marking. */
  lemma MarkedEmits(st: State, s: Slice, cfg: Config)
    ensures st.emitted <= Marked(st, s, cfg).emitted && (!Resets(s) ==> Marked(st, s, cfg).emitted == st.emitted)
    ensures Marked(st, s, cfg).discarded == st.discarded
  {
    hide MarkedState, Filter, BumpAll;
    CurrentNumbers(st, s, cfg);
    var m := MarkedState(st, s, cfg);
    var t := st.(pics := DeleteUnused(m.pics), maxLongTermFrameIdx := m.maxLongTermFrameIdx,
                 prevRefFrameNum := if s.isRef then m.cur.frameNum else st.prevRefFrameNum,
                 finished := st.finished + [m.cur]);
    BumpAllAppends(t, cfg);
  }

  /** The frames of the sequence in decoding order, as they were finished. */
  ghost predicate Finished(st: State, before: State, ss: seq<Slice>, b: nat, k: nat)
    requires b <= k <= |ss|
  {
    && st.discarded == before.discarded && before.finished <= st.finished
    && |st.finished| == |before.finished| + (k - b)
    && forall i :: b <= i < k ==> st.finished[|before.finished| + (i - b)].poc == FinalPoc(ss[i])
  }

  lemma {:induction false} RunFinishes(ss: seq<Slice>, b: nat, e: nat, k: nat, cfg: Config)
    requires Bounded(ss, b, e, cfg) && Decoded(ss, b, e, cfg) && b < k <= e
    ensures Finished(Run(ss[..k], cfg), StartedAt(ss, b, cfg), ss, b, k)
  {
    hide Start, Finish, Run, InTime, CurrentPic, Marked, Insert, BumpWhile;
    var st, s, g := Run(ss[..k - 1], cfg), ss[k - 1], StartedAt(ss, k - 1, cfg);
    var cur := CurrentPic(g, s, cfg);
    assert Start(st, s, cfg).ok;
    RunNext(ss, k - 1, cfg);
    StartSound(st, s, cfg);
    MarkedSound(g, s, cfg);
    MarkedEmits(g, s, cfg);
    SteppedAppends(MarkedAt(ss, k - 1, cfg), cur, cfg);
    SteppedFinishes(MarkedAt(ss, k - 1, cfg), cur, cfg);
    CurrentNumbers(g, s, cfg);
    if k - 1 > b {
      RunFinishes(ss, b, e, k - 1, cfg);
      NothingOutput(st);
      StartSorted(st, s, cfg, st.emitted);
    }
  }

  lemma SteppedFinishes(t: State, cur: Pic, cfg: Config)
    requires Sound(t, cfg)
    ensures Stepped(t, cur, cfg).finished == t.finished
  {
    hide BumpWhile, Insert;
    InsertSound(t, cur, cfg);
    BumpWhilePending(Insert(t, cur, cfg), None, cfg.mode, cfg);
  }

  /** What was out when the sequence began, by any property: all that had been finished and not thrown away. */
  lemma BaseCount(ss: seq<Slice>, b: nat, e: nat, cfg: Config, c: int)
    requires Bounded(ss, b, e, cfg)
    ensures var g, t := StartedAt(ss, b, cfg), MarkedAt(ss, b, cfg);
            Count(g.finished, PocIs(c)) == Count(t.emitted, PocIs(c)) + Count(g.discarded, PocIs(c))
  {
    hide Start, Marked, Run, CurrentPic, InTime;
    var q, g, t := PocIs(c), StartedAt(ss, b, cfg), MarkedAt(ss, b, cfg);
    FirstIsDecoded(ss, b, cfg);
    RunConserves(ss[..b], cfg, q);
    StartConserves(Run(ss[..b], cfg), ss[b], cfg, q);
    MarkedBalance(g, ss[b], cfg, q);
    StartSound(Run(ss[..b], cfg), ss[b], cfg);
    MarkedSound(g, ss[b], cfg);
    MarkedEmits(g, ss[b], cfg);
    CountAppend(g.finished, CurrentPic(g, ss[b], cfg), q);
    MarkedFromSequence(ss, cfg, b, b, c);
    CountMonotone(t.pics, WaitingAnd(q), WaitingAnd(PocFrom(c)), |t.pics|);
    assert ss[b..b] == [];
  }

  lemma FinishedCount(st: State, before: State, ss: seq<Slice>, b: nat, e: nat, c: int)
    requires b <= e <= |ss| && Finished(st, before, ss, b, e)
    ensures Count(st.finished, PocIs(c)) == Count(before.finished, PocIs(c)) + Count(ss[b..e], SliceIs(c))
  {
    var n := |before.finished|;
    assert st.finished == before.finished + st.finished[n..];
    CountConcat(before.finished, st.finished[n..], PocIs(c));
    forall i | 0 <= i < e - b
      ensures PocIs(c)(st.finished[n..][i]) == SliceIs(c)(ss[b..e][i])
    {
      assert st.finished[n..][i] == st.finished[n + (b + i - b)] && ss[b..e][i] == ss[b + i];
    }
    CountSame(st.finished[n..], PocIs(c), ss[b..e], SliceIs(c), e - b);
  }

  /** A drain leaves nothing waiting: what is finished is out or was thrown away. */
  lemma DrainCount(st: State, cfg: Config, base: seq<Pic>, q: Pic -> bool)
    requires Stable(q) && Conserved(st, q) && base <= st.emitted
    ensures var out := Drain(st, cfg).emitted;
            && base <= out
            && Count(st.finished, q) == Count(base, q) + Count(out[|base|..], q) + Count(st.discarded, q)
  {
    hide BumpAll, Stable, Count;
    var out := Drain(st, cfg).emitted;
    BumpAllConserves(st, cfg, q);
    BumpAllAppends(st, cfg);
    assert out == base + out[|base|..];
    CountConcat(base, out[|base|..], q);
  }

  lemma PocIsStable(c: int)
    ensures Stable(PocIs(c))
  {
  }

  lemma FinishedDiscards(st: State, before: State, ss: seq<Slice>, b: nat, k: nat)
    requires b <= k <= |ss| && Finished(st, before, ss, b, k)
    ensures st.discarded == before.discarded
  {
  }

  lemma SortedDrain(st: State, cfg: Config, base: seq<Pic>)
    requires Sorted(st, base)
    ensures var out := Drain(st, cfg).emitted;
            st.emitted <= out && NonDecreasing(out[|base|..])
  {
    var out := Drain(st, cfg).emitted;
    var low := if Lowest(st.pics) >= 0 then st.pics[Lowest(st.pics)].poc else 0;
    BumpAllSorted(st, cfg, if |st.emitted| > |base| then Last(st).poc else low);
    var a, d := st.emitted[|base|..], out[|st.emitted|..];
    assert out[|base|..] == a + d;
    if a != [] {
      assert a[|a| - 1] == Last(st);
    }
  }

  /** Through a drain at its end the sequence has left with exactly its order counts. */
  lemma SequenceComplete(ss: seq<Slice>, b: nat, e: nat, cfg: Config, c: int)
    requires Bounded(ss, b, e, cfg) && AllTimely(ss, b, e, cfg) && Decoded(ss, b, e, cfg)
    ensures var base, out := MarkedAt(ss, b, cfg).emitted, Drain(Run(ss[..e], cfg), cfg).emitted;
            base <= out && Count(out[|base|..], PocIs(c)) == Count(ss[b..e], SliceIs(c))
  {
    hide StartedAt, MarkedAt, Run, Finished, Sorted, InTime, SameSequence, Drain, Count, Stable, Conserved;
    hide AllTimely, Decoded;
    var r, g := Run(ss[..e], cfg), StartedAt(ss, b, cfg);
    RunSorted(ss, b, e, e, cfg);
    SortedExtends(r, MarkedAt(ss, b, cfg).emitted);
    RunFinishes(ss, b, e, e, cfg);
    FinishedCount(r, g, ss, b, e, c);
    FinishedDiscards(r, g, ss, b, e);
    BaseCount(ss, b, e, cfg, c);
    PocIsStable(c);
    RunConserves(ss[..e], cfg, PocIs(c));
    DrainCount(r, cfg, MarkedAt(ss, b, cfg).emitted, PocIs(c));
  }

  // ---- Whole sequences ----------------------------------------------------------------------------------

  /** What the sequence b to e - 1 has output by its end, and through a drain there, is in non-decreasing order count;
      when every frame is decoded it is all of them. */
  ghost predicate LeavesInOrder(ss: seq<Slice>, b: nat, e: nat, cfg: Config)
    requires Numbered(ss, cfg) && b < e <= |ss|
  {
    var base, r := MarkedAt(ss, b, cfg).emitted, Run(ss[..e], cfg);
    var out := Drain(r, cfg).emitted;
    && base <= r.emitted <= out && NonDecreasing(out[|base|..])
    && (Decoded(ss, b, e, cfg) ==> forall c :: Count(out[|base|..], PocIs(c)) == Count(ss[b..e], SliceIs(c)))
  }

  /** Any coded video sequence of a run, in any mode: if every frame leaves covered, all leave in order. */
  lemma SequenceInOrder(ss: seq<Slice>, b: nat, e: nat, cfg: Config)
    requires Bounded(ss, b, e, cfg) && AllTimely(ss, b, e, cfg)
    ensures LeavesInOrder(ss, b, e, cfg)
  {
    hide SameSequence, InTime, MarkedAt, Run, Drain, Count, NonDecreasing, Sorted, AllTimely, Decoded;
    var base, r := MarkedAt(ss, b, cfg).emitted, Run(ss[..e], cfg);
    RunSorted(ss, b, e, e, cfg);
    SortedExtends(r, base);
    SortedDrain(r, cfg, base);
    if Decoded(ss, b, e, cfg) {
      forall c
        ensures Count(Drain(r, cfg).emitted[|base|..], PocIs(c)) == Count(ss[b..e], SliceIs(c))
      {
        SequenceComplete(ss, b, e, cfg, c);
      }
    }
  }

  /** A stream of one sequence: what the decoder outputs, from the first frame through the last drain. */
  lemma OutputOrder(ss: seq<Slice>, cfg: Config)
    requires Bounded(ss, 0, |ss|, cfg) && AllTimely(ss, 0, |ss|, cfg)
    ensures var out := Drain(Run(ss, cfg), cfg).emitted;
            && NonDecreasing(out)
            && (Decoded(ss, 0, |ss|, cfg) ==> forall c :: Count(out, PocIs(c)) == Count(ss, SliceIs(c)))
  {
    hide SameSequence, InTime, Drain, Count, NonDecreasing, AllTimely, Decoded;
    SequenceInOrder(ss, 0, |ss|, cfg);
    FirstOutputsNothing(ss, cfg);
    var out := Drain(Run(ss, cfg), cfg).emitted;
    assert ss[..|ss|] == ss && ss[0..|ss|] == ss && out[0..] == out;
  }

  lemma FirstOutputsNothing(ss: seq<Slice>, cfg: Config)
    requires Bounded(ss, 0, |ss|, cfg)
    ensures MarkedAt(ss, 0, cfg).emitted == []
  {
    hide Start, Marked, InTime, SameSequence;
    var t := MarkedAt(ss, 0, cfg);
    assert ss[..0] == [];
    StartSound(Initial, ss[0], cfg);
    if t.emitted != [] {
      var q := PocIs(t.emitted[0].poc);
      assert q(t.emitted[0]);
      BaseCount(ss, 0, |ss|, cfg, t.emitted[0].poc);
      CountAll(t.emitted, q, |t.emitted|);
    }
  }
}
