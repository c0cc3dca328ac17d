/** The early bump by num_reorder_frames is safe: a frame it outputs is never overtaken by one decoded later. */
module H264Reorder {
  import opened Seqs
  import opened H264DpbSpec
  import opened H264Machine
  import opened H264Marking
  import opened H264Run

  function PocFrom(c: int): Pic -> bool { (p: Pic) => p.poc >= c }

  /** Frames that end up at order count c or later. */
  function SliceFrom(c: int): Slice -> bool { (s: Slice) => FinalPoc(s) >= c }

  /** A coded video sequence begins at b: with the run, with an IDR frame, or with a frame that carries out
      operation 5. */
  ghost predicate Begins(ss: seq<Slice>, b: nat, cfg: Config)
    requires Numbered(ss, cfg) && b < |ss|
  {
    || b == 0
    || (ss[b].idr && ss[b].frameNum == 0)
    || (Resets(ss[b]) && Start(Run(ss[..b], cfg), ss[b], cfg).ok)
  }

  /** Frames b to j are of one sequence. */
  ghost predicate SameSequence(ss: seq<Slice>, b: nat, j: nat, cfg: Config)
    requires Numbered(ss, cfg) && b <= j < |ss|
  {
    Begins(ss, b, cfg) && forall i :: b < i <= j ==> !ss[i].idr && !Resets(ss[i])
  }

  /** num_reorder_frames: so many frames of its sequence may precede frame j in decoding order and follow it in
      output order. */
  ghost predicate InTime(ss: seq<Slice>, b: nat, j: nat, reorder: nat)
    requires b <= j < |ss|
  {
    Count(ss[b..j], SliceFrom(FinalPoc(ss[j]) + 1)) <= reorder
  }

  /** The buffer after n more frames have been output, or as many as were waiting. */
  function Bumps(st: State, n: nat, cfg: Config): State {
    if n == 0 then st
    else
      var b := Bumps(st, n - 1, cfg);
      if Lowest(b.pics) >= 0 then BumpOnce(b, false, cfg) else b
  }

  predicate Wants(b: State, toInsert: Option<Pic>, mode: BumpMode, cfg: Config) {
    NeedsBump(b.pics, cfg.limits, b.lastPoc, b.lastNonRef, toInsert, mode) && Lowest(b.pics) >= 0
  }

  /** A round of bumping passes through such states, and only while it wants another frame. */
  lemma {:induction false} BumpWhileIsBumps(st: State, toInsert: Option<Pic>, mode: BumpMode, cfg: Config)
    returns (n: nat)
    ensures BumpWhile(st, toInsert, mode, cfg) == Bumps(st, n, cfg)
    ensures forall k :: 0 <= k < n ==> Wants(Bumps(st, k, cfg), toInsert, mode, cfg)
    ensures !Wants(Bumps(st, n, cfg), toInsert, mode, cfg)
    decreases Count(st.pics, Waiting)
  {
    hide NeedsBump, BumpOnce, Bumps;
    n := 0;
    BumpsNone(st, cfg);
    if Wants(st, toInsert, mode, cfg) {
      var m := BumpWhileIsBumps(BumpOnce(st, false, cfg), toInsert, mode, cfg);
      n := m + 1;
      BumpsShift(st, m, cfg);
      forall k | 0 < k < n
        ensures Wants(Bumps(st, k, cfg), toInsert, mode, cfg)
      {
        BumpsShift(st, k - 1, cfg);
      }
    }
  }

  lemma BumpsNone(st: State, cfg: Config)
    ensures Bumps(st, 0, cfg) == st
  {
  }

  lemma {:induction false} BumpsShift(st: State, n: nat, cfg: Config)
    requires Lowest(st.pics) >= 0
    ensures Bumps(st, n + 1, cfg) == Bumps(BumpOnce(st, false, cfg), n, cfg)
  {
    if n > 0 {
      BumpsShift(st, n - 1, cfg);
    }
  }

  // ---- Waiting frames do not multiply ---------------------------------------------------------------------

  lemma BumpOnceNoGrowth(st: State, drain: bool, cfg: Config, q: Pic -> bool)
    requires Lowest(st.pics) >= 0
    ensures Count(BumpOnce(st, drain, cfg).pics, WaitingAnd(q)) <= Count(st.pics, WaitingAnd(q))
  {
    OutputCount(st.pics, Lowest(st.pics), drain, WaitingAnd(q));
  }

  lemma {:induction false} BumpsNoGrowth(st: State, n: nat, cfg: Config, q: Pic -> bool)
    ensures Count(Bumps(st, n, cfg).pics, WaitingAnd(q)) <= Count(st.pics, WaitingAnd(q))
  {
    hide BumpOnce, Count;
    if n > 0 {
      BumpsNoGrowth(st, n - 1, cfg, q);
      var b := Bumps(st, n - 1, cfg);
      if Lowest(b.pics) >= 0 {
        BumpOnceNoGrowth(b, false, cfg, q);
      }
    }
  }

  lemma BumpWhileNoGrowth(st: State, toInsert: Option<Pic>, mode: BumpMode, cfg: Config, q: Pic -> bool)
    ensures Count(BumpWhile(st, toInsert, mode, cfg).pics, WaitingAnd(q)) <= Count(st.pics, WaitingAnd(q))
  {
    var n := BumpWhileIsBumps(st, toInsert, mode, cfg);
    BumpsNoGrowth(st, n, cfg, q);
  }

  lemma GapStepNoGrowth(st: State, n: int, poc: int, cfg: Config, q: Pic -> bool)
    requires Stable(q)
    ensures Count(GapStep(st, n, poc, cfg).st.pics, WaitingAnd(q)) <= Count(st.pics, WaitingAnd(q))
  {
    hide BumpWhile, Slide, Stable, Filter, Count;
    var renumbered, frame := Map(st.pics, Renumber(n, cfg.maxFrameNum)), GapFrame(n, poc);
    var slid := Slide(renumbered, MaxRefs(cfg));
    MapAlike(st.pics, Renumber(n, cfg.maxFrameNum));
    AlikeCount(st.pics, renumbered, q);
    SlideAlike(renumbered, MaxRefs(cfg));
    AlikeCount(renumbered, slid.pics, q);
    var cleaned := st.(pics := DeleteUnused(slid.pics));
    BumpWhileNoGrowth(cleaned, Some(frame), NormalLatency, cfg, q);
    CountAppend(BumpWhile(cleaned, Some(frame), NormalLatency, cfg).pics, Stored(frame), WaitingAnd(q));
  }

  lemma {:induction false} GapLoopNoGrowth(st: State, n: int, target: int, poc: int, cfg: Config, q: Pic -> bool)
    requires 0 <= n < cfg.maxFrameNum && 0 <= target < cfg.maxFrameNum && Stable(q)
    ensures Count(GapLoop(st, n, target, poc, cfg).st.pics, WaitingAnd(q)) <= Count(st.pics, WaitingAnd(q))
    decreases Ahead(n, target, cfg.maxFrameNum)
  {
    hide GapStep, Stable, Count;
    if n != target {
      GapStepNoGrowth(st, n, poc, cfg, q);
      var g := GapStep(st, n, poc, cfg);
      if g.ok {
        GapLoopNoGrowth(g.st, Next(n, cfg.maxFrameNum), target, poc, cfg, q);
      }
    }
  }

  lemma StartNoGrowth(st: State, s: Slice, cfg: Config, q: Pic -> bool)
    requires ValidNumbers(st, s, cfg) && Stable(q)
    ensures Count(Start(st, s, cfg).st.pics, WaitingAnd(q)) <= Count(st.pics, WaitingAnd(q))
    ensures s.idr && s.frameNum == 0 ==> Start(st, s, cfg).ok && Start(st, s, cfg).st.pics == []
  {
    hide GapLoop, Stable, BumpAll, Count;
    var st0 := if s.idr then st.(prevRefFrameNum := 0) else st;
    if IsGap(st0, s, cfg) {
      GapLoopNoGrowth(st0, Next(st0.prevRefFrameNum, cfg.maxFrameNum), s.frameNum, s.gapPoc, cfg, q);
    }
    var g := HandleGap(st0, s, cfg);
    if g.ok {
      var flushed := if s.idr then [] else g.st.pics;
      MapAlike(flushed, Renumber(s.frameNum, cfg.maxFrameNum));
      AlikeCount(flushed, Map(flushed, Renumber(s.frameNum, cfg.maxFrameNum)), q);
      NoneCounted(WaitingAnd(q));
    }
  }

  lemma NoneCounted(q: Pic -> bool)
    ensures Count([], q) == 0
  {
  }

  lemma MarkedNoGrowth(st: State, s: Slice, cfg: Config, q: Pic -> bool)
    requires Stable(q)
    ensures Count(Marked(st, s, cfg).pics, WaitingAnd(q)) <= Count(st.pics, WaitingAnd(q))
    ensures Resets(s) ==> Marked(st, s, cfg).pics == []
  {
    hide MarkedState, Stable, Filter, BumpAll, Count;
    CurrentNumbers(st, s, cfg);
    MarkedStateAlike(st, s, cfg);
    AlikeCount(st.pics, MarkedState(st, s, cfg).pics, q);
    NoneCounted(WaitingAnd(q));
  }

  lemma InsertGrowth(st: State, cur: Pic, cfg: Config, q: Pic -> bool)
    requires Stable(q)
    ensures Count(Insert(st, cur, cfg).pics, WaitingAnd(q)) <= Count(st.pics, WaitingAnd(q)) + if q(cur) then 1 else 0
  {
    hide BumpWhile, Count;
    BumpWhileNoGrowth(st, Some(cur), cfg.mode, cfg, q);
    var b := BumpWhile(st, Some(cur), cfg.mode, cfg);
    CountAppend(b.pics, Stored(cur), WaitingAnd(q));
  }

  /** What waits when frame k has been marked is of its sequence. */
  lemma MarkedFromSequence(ss: seq<Slice>, cfg: Config, b: nat, k: nat, c: int)
    requires Numbered(ss, cfg) && b <= k < |ss| && SameSequence(ss, b, k, cfg)
    requires Start(Run(ss[..k], cfg), ss[k], cfg).ok
    ensures var t := Marked(Start(Run(ss[..k], cfg), ss[k], cfg).st, ss[k], cfg);
            Count(t.pics, WaitingAnd(PocFrom(c))) <= Count(ss[b..k], SliceFrom(c))
    decreases k, 0
  {
    hide Start, Marked, Count, Run;
    var st, q := Run(ss[..k], cfg), PocFrom(c);
    StartNoGrowth(st, ss[k], cfg, q);
    MarkedNoGrowth(Start(st, ss[k], cfg).st, ss[k], cfg, q);
    NoneCounted(WaitingAnd(q));
    if k > b {
      RunFromSequence(ss, cfg, b, k, c);
    } else if k == 0 {
      RunOfNone(ss, cfg);
    }
  }

  lemma RunOfNone(ss: seq<Slice>, cfg: Config)
    requires Numbered(ss, cfg)
    ensures Run(ss[..0], cfg).pics == []
  {
  }

  /** What waits after frame k - 1 is of its sequence. */
  lemma RunFromSequence(ss: seq<Slice>, cfg: Config, b: nat, k: nat, c: int)
    requires Numbered(ss, cfg) && b < k <= |ss| && SameSequence(ss, b, k - 1, cfg)
    ensures Count(Run(ss[..k], cfg).pics, WaitingAnd(PocFrom(c))) <= Count(ss[b..k], SliceFrom(c))
    decreases k - 1, 1
  {
    hide Start, Marked, Insert, BumpWhile, Count, SameSequence;
    var q, s, st := PocFrom(c), ss[k - 1], Run(ss[..k - 1], cfg);
    assert ss[..k][..k - 1] == ss[..k - 1] && ss[b..k] == ss[b..k - 1] + [s];
    CountAppend(ss[b..k - 1], s, SliceFrom(c));
    var g := Start(st, s, cfg);
    if g.ok {
      MarkedFromSequence(ss, cfg, b, k - 1, c);
      var cur, t := CurrentPic(g.st, s, cfg), Marked(g.st, s, cfg);
      CurrentNumbers(g.st, s, cfg);
      InsertGrowth(t, cur, cfg, q);
      BumpWhileNoGrowth(Insert(t, cur, cfg), None, cfg.mode, cfg, q);
    } else {
      DroppedFromSequence(ss, cfg, b, k - 1, c);
    }
  }

  /** A dropped frame begins no sequence and adds nothing. */
  lemma DroppedFromSequence(ss: seq<Slice>, cfg: Config, b: nat, k: nat, c: int)
    requires Numbered(ss, cfg) && b <= k < |ss| && SameSequence(ss, b, k, cfg)
    requires !Start(Run(ss[..k], cfg), ss[k], cfg).ok
    ensures Count(Start(Run(ss[..k], cfg), ss[k], cfg).st.pics, WaitingAnd(PocFrom(c))) <= Count(ss[b..k], SliceFrom(c))
    decreases k, 0
  {
    hide Start, Count, Run;
    StartNoGrowth(Run(ss[..k], cfg), ss[k], cfg, PocFrom(c));
    NoneCounted(WaitingAnd(PocFrom(c)));
    if k > b {
      RunFromSequence(ss, cfg, b, k, c);
    } else if k == 0 {
      RunOfNone(ss, cfg);
    }
  }

  // ---- Safety -------------------------------------------------------------------------------------------------

  /** The rule saw more waiting frames at or after the chosen one than the stream may reorder. */
  lemma RuleCounts(pics: seq<Pic>, reorder: nat)
    requires ReorderRule(pics, reorder)
    ensures Count(pics, WaitingAnd(PocFrom(pics[Lowest(pics)].poc))) > reorder
  {
    var i := Lowest(pics);
    var q := WaitingAnd(PocFrom(pics[i].poc));
    CountSame(pics, q, pics, Waiting, i + 1);
    CountPrefix(pics, i + 1, q);
  }

  lemma {:induction false} CountGrows(ss: seq<Slice>, b: nat, k: nat, j: nat, q: Slice -> bool)
    requires b <= k <= j <= |ss|
    ensures Count(ss[b..k], q) <= Count(ss[b..j], q)
    decreases j - k
  {
    if k < j {
      assert ss[b..k + 1] == ss[b..k] + [ss[k]];
      CountAppend(ss[b..k], ss[k], q);
      CountGrows(ss, b, k + 1, j, q);
    }
  }

  /** The count argument: were the later frame to precede the one output, too many frames would follow it. */
  lemma NotOvertaken(pics: seq<Pic>, ss: seq<Slice>, b: nat, k: nat, j: nat, reorder: nat)
    requires b <= k <= j < |ss| && InTime(ss, b, j, reorder) && ReorderRule(pics, reorder)
    requires forall c :: Count(pics, WaitingAnd(PocFrom(c))) <= Count(ss[b..k], SliceFrom(c))
    ensures FinalPoc(ss[j]) >= pics[Lowest(pics)].poc
  {
    var c := pics[Lowest(pics)].poc;
    RuleCounts(pics, reorder);
    if FinalPoc(ss[j]) < c {
      CountGrows(ss, b, k, j, SliceFrom(c));
      CountMonotone(ss[b..j], SliceFrom(c), SliceFrom(FinalPoc(ss[j]) + 1), j - b);
      assert false;
    }
  }

  /** Before the current frame k is stored: no frame j of its sequence, k or later, precedes what the rule outputs. */
  lemma EarlyBumpIsSafe(ss: seq<Slice>, cfg: Config, b: nat, k: nat, j: nat, n: nat)
    requires Numbered(ss, cfg) && b <= k <= j < |ss| && SameSequence(ss, b, j, cfg)
    requires InTime(ss, b, j, cfg.limits.maxNumReorderFrames)
    requires Start(Run(ss[..k], cfg), ss[k], cfg).ok
    requires var t := Marked(Start(Run(ss[..k], cfg), ss[k], cfg).st, ss[k], cfg);
             ReorderRule(Bumps(t, n, cfg).pics, cfg.limits.maxNumReorderFrames)
    ensures var t := Marked(Start(Run(ss[..k], cfg), ss[k], cfg).st, ss[k], cfg);
            var r := Bumps(t, n, cfg);
            FinalPoc(ss[j]) >= r.pics[Lowest(r.pics)].poc
  {
    hide Start, Marked, ReorderRule, InTime, Bumps, Run, Count, FinalPoc;
    var t := Marked(Start(Run(ss[..k], cfg), ss[k], cfg).st, ss[k], cfg);
    var r := Bumps(t, n, cfg);
    forall c
      ensures Count(r.pics, WaitingAnd(PocFrom(c))) <= Count(ss[b..k], SliceFrom(c))
    {
      MarkedFromSequence(ss, cfg, b, k, c);
      BumpsNoGrowth(t, n, cfg, PocFrom(c));
    }
    NotOvertaken(r.pics, ss, b, k, j, cfg.limits.maxNumReorderFrames);
  }

  /** After it is stored, in the extra round of a live stream: no later frame of the sequence does. */
  lemma LiveBumpIsSafe(ss: seq<Slice>, cfg: Config, b: nat, k: nat, j: nat, n: nat)
    requires Numbered(ss, cfg) && b <= k < j < |ss| && SameSequence(ss, b, j, cfg)
    requires InTime(ss, b, j, cfg.limits.maxNumReorderFrames)
    requires Start(Run(ss[..k], cfg), ss[k], cfg).ok
    requires var st := Start(Run(ss[..k], cfg), ss[k], cfg).st;
             var t := Insert(Marked(st, ss[k], cfg), CurrentPic(st, ss[k], cfg), cfg);
             ReorderRule(Bumps(t, n, cfg).pics, cfg.limits.maxNumReorderFrames)
    ensures var st := Start(Run(ss[..k], cfg), ss[k], cfg).st;
            var t := Insert(Marked(st, ss[k], cfg), CurrentPic(st, ss[k], cfg), cfg);
            var r := Bumps(t, n, cfg);
            FinalPoc(ss[j]) >= r.pics[Lowest(r.pics)].poc
  {
    hide Start, Marked, MarkedState, ReorderRule, InTime, Bumps, Insert, Run, Count, Resets;
    var st, s := Start(Run(ss[..k], cfg), ss[k], cfg).st, ss[k];
    var cur := CurrentPic(st, s, cfg);
    var t := Insert(Marked(st, s, cfg), cur, cfg);
    var r := Bumps(t, n, cfg);
    assert ss[b..k + 1] == ss[b..k] + [s];
    CurrentNumbers(st, s, cfg);
    forall c
      ensures Count(r.pics, WaitingAnd(PocFrom(c))) <= Count(ss[b..k + 1], SliceFrom(c))
    {
      MarkedFromSequence(ss, cfg, b, k, c);
      CountAppend(ss[b..k], s, SliceFrom(c));
      InsertGrowth(Marked(st, s, cfg), cur, cfg, PocFrom(c));
      BumpsNoGrowth(t, n, cfg, PocFrom(c));
    }
    NotOvertaken(r.pics, ss, b, k + 1, j, cfg.limits.maxNumReorderFrames);
  }
}
