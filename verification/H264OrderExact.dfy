/** Leaving covered is not only enough for output order but needed: as soon as one frame leaves early, there is a frame
    that the stream may send next, within num_reorder_frames, and that leaves too late. */
module H264OrderExact {
  import opened Seqs
  import opened H264DpbSpec
  import opened H264Machine
  import opened H264Run
  import opened H264Capacity
  import opened H264Reorder
  import opened H264Order
  import opened H264NormalOrder

  /** A frame just before order count poc. */
  function JustBefore(poc: int, frameNum: int, isRef: bool): Slice {
    Slice(0, poc - 1, frameNum, isRef, false, false, false, false, [], 0)
  }

  lemma JustBeforeShape(poc: int, frameNum: int, isRef: bool)
    ensures var s := JustBefore(poc, frameNum, isRef); !Resets(s) && FinalPoc(s) == poc - 1
  {
  }

  lemma StepAppends(st: State, s: Slice, cfg: Config)
    requires ValidNumbers(st, s, cfg) && !s.idr && !Resets(s)
    ensures var g, r := Start(st, s, cfg), Step(st, s, cfg);
            && st.emitted <= r.emitted && r.discarded == st.discarded
            && r.finished == if g.ok then st.finished + [CurrentPic(g.st, s, cfg)] else st.finished
  {
    hide Start, Marked, Stepped, CurrentPic, Resets;
    var g := Start(st, s, cfg);
    NothingOutput(st);
    StartSorted(st, s, cfg, st.emitted);
    StartSound(st, s, cfg);
    if g.ok {
      MarkedSound(g.st, s, cfg);
      MarkedEmits(g.st, s, cfg);
      var t, cur := Marked(g.st, s, cfg), CurrentPic(g.st, s, cfg);
      SteppedAppends(t, cur, cfg);
      SteppedFinishes(t, cur, cfg);
      StepIsStepped(st, s, cfg);
    }
  }

  lemma StepIsStepped(st: State, s: Slice, cfg: Config)
    requires ValidNumbers(st, s, cfg) && Start(st, s, cfg).ok
    ensures var g := Start(st, s, cfg).st;
            Step(st, s, cfg) == Stepped(Marked(g, s, cfg), CurrentPic(g, s, cfg), cfg)
  {
    hide Start, Marked, Insert, BumpWhile, CurrentPic;
  }

  /** What a sequence has output stays out. */
  lemma {:induction false} SequenceAppends(ss: seq<Slice>, b: nat, k: nat, cfg: Config)
    requires Within(ss, k, cfg) && b <= k && SameSequence(ss, b, k, cfg)
    ensures MarkedAt(ss, b, cfg).emitted <= OutBefore(ss, b, k, cfg) <= Run(ss[..k + 1], cfg).emitted
  {
    hide Run, MarkedAt, Stepped, CurrentPic, Resets, Start, Step;
    if k == b {
      FirstIsDecoded(ss, b, cfg);
      RunNext(ss, b, cfg);
      SteppedAppends(MarkedAt(ss, b, cfg), CurrentPic(StartedAt(ss, b, cfg), ss[b], cfg), cfg);
    } else {
      SequenceAppends(ss, b, k - 1, cfg);
      StepAppends(Run(ss[..k], cfg), ss[k], cfg);
      RunSteps(ss, k, cfg);
    }
  }

  lemma RunSteps(ss: seq<Slice>, k: nat, cfg: Config)
    requires Within(ss, k, cfg)
    ensures Run(ss[..k + 1], cfg) == Step(Run(ss[..k], cfg), ss[k], cfg)
  {
    hide Step;
    assert ss[..k + 1][..k] == ss[..k];
  }

  /** The stream goes on as it was. */
  lemma LongerIsBounded(ss: seq<Slice>, b: nat, k: nat, s: Slice, cfg: Config)
    requires Bounded(ss, b, k + 1, cfg) && 0 <= s.frameNum < cfg.maxFrameNum && !s.idr && !Resets(s)
    requires InTime(ss[..k + 1] + [s], b, k + 1, cfg.limits.maxNumReorderFrames)
    ensures var longer := ss[..k + 1] + [s];
            && Bounded(longer, b, k + 2, cfg) && longer[..k + 1] == ss[..k + 1]
            && MarkedAt(longer, b, cfg) == MarkedAt(ss, b, cfg)
  {
    hide Run, Start, Resets, Marked, FinalPoc;
    var longer, r := ss[..k + 1] + [s], cfg.limits.maxNumReorderFrames;
    assert longer[..b] == ss[..b];
    forall j | b <= j < k + 2
      ensures InTime(longer, b, j, r)
    {
      if j <= k {
        assert longer[b..j] == ss[b..j] && longer[j] == ss[j];
        assert InTime(ss, b, j, r);
      }
    }
  }

  /** A frame decoded after st, and what a drain puts out behind: its order count is there. */
  lemma LeavesAfter(st: State, s: Slice, cfg: Config)
    requires ValidNumbers(st, s, cfg) && !s.idr && !Resets(s) && Start(st, s, cfg).ok
    requires Conserved(st, PocIs(FinalPoc(s))) && Conserved(Step(st, s, cfg), PocIs(FinalPoc(s)))
    ensures var out := Drain(Step(st, s, cfg), cfg).emitted;
            && st.emitted <= out
            && exists j :: |st.emitted| <= j < |out| && out[j].poc == FinalPoc(s)
  {
    hide Step, Start, Drain, CurrentPic, Resets, FinalPoc, Stable;
    var q, r := PocIs(FinalPoc(s)), Step(st, s, cfg);
    var cur := CurrentPic(Start(st, s, cfg).st, s, cfg);
    StepAppends(st, s, cfg);
    CurrentNumbers(Start(st, s, cfg).st, s, cfg);
    CountAppend(st.finished, cur, q);
    PocIsStable(FinalPoc(s));
    DrainCount(r, cfg, st.emitted, q);
    var out := Drain(r, cfg).emitted;
    var rest := out[|st.emitted|..];
    CountAll(rest, q, |rest|);
    var i :| 0 <= i < |rest| && q(rest[i]);
    assert out[|st.emitted| + i] == rest[i];
  }

  lemma StartsWithoutGap(st: State, s: Slice, cfg: Config)
    requires Sound(st, cfg) && !s.idr && s.frameNum == Next(st.prevRefFrameNum, cfg.maxFrameNum)
    ensures Start(st, s, cfg).ok
  {
  }

  /** Whatever the mode and the buffer: if a frame leaves while frame k is decoded and is not covered, a frame that the
      stream may send next, as a reference or not, leaves out of order. */
  lemma TimelyIsNeeded(ss: seq<Slice>, b: nat, k: nat, isRef: bool, cfg: Config) returns (s: Slice)
    requires b <= k && Bounded(ss, b, k + 1, cfg) && !Timely(ss, b, k, cfg)
    ensures s.isRef == isRef && !s.idr && !s.adaptive && !s.longTermReference
    ensures Numbered(ss[..k + 1] + [s], cfg) && Bounded(ss[..k + 1] + [s], b, k + 2, cfg)
    ensures !LeavesInOrder(ss[..k + 1] + [s], b, k + 2, cfg)
  {
    hide Run, MarkedAt, Start, Step, Drain, Resets, FinalPoc, SameSequence, Count, Decoded, OutBefore, Conserved;
    var before, st := OutBefore(ss, b, k, cfg), Run(ss[..k + 1], cfg);
    var i :| |before| <= i < |st.emitted|
          && !Covered(ss, b, k, st.emitted[i].poc, cfg.limits.maxNumReorderFrames);
    var poc := st.emitted[i].poc;
    s := JustBefore(poc, Next(st.prevRefFrameNum, cfg.maxFrameNum), isRef);
    JustBeforeShape(poc, s.frameNum, isRef);
    var longer, base := ss[..k + 1] + [s], MarkedAt(ss, b, cfg).emitted;
    assert longer[b..k + 1] == ss[b..k + 1];
    assert InTime(longer, b, k + 1, cfg.limits.maxNumReorderFrames);
    LongerIsBounded(ss, b, k, s, cfg);
    SequenceAppends(ss, b, k, cfg);
    StartsWithoutGap(st, s, cfg);
    RunSteps(longer, k + 1, cfg);
    RunConserves(longer[..k + 1], cfg, PocIs(poc - 1));
    RunConserves(longer[..k + 2], cfg, PocIs(poc - 1));
    LeavesAfter(st, s, cfg);
    var out := Drain(Run(longer[..k + 2], cfg), cfg).emitted;
    var j :| |st.emitted| <= j < |out| && out[j].poc == poc - 1;
    NotInOrder(out, |base|, i, j);
  }

  lemma NotInOrder(out: seq<Pic>, n: nat, i: nat, j: nat)
    requires n <= i < j < |out| && out[j].poc < out[i].poc
    ensures !NonDecreasing(out[n..])
  {
    assert out[n..][i - n] == out[i] && out[n..][j - n] == out[j];
  }

  // ---- All streams of a decoder ------------------------------------------------------------------------------

  /** A decoder with these limits and this mode puts every sequence that keeps num_reorder_frames in order, in all
      streams that keep num_ref_frames. */
  ghost predicate KeepsOrder(cfg: Config) {
    forall ss: seq<Slice>, b: nat, e: nat :: Bounded(ss, b, e, cfg) && !EverMeets(ss, cfg, MaxRefs(cfg)) ==>
      LeavesInOrder(ss, b, e, cfg)
  }

  /** A stream as simple as can be: the sliding window marks, nothing is long-term, and non-reference frames in a row
      do not go back in output order (section 7.4.1.2.2). */
  predicate Ordinary(ss: seq<Slice>) {
    && SlidingOnly(ss)
    && (forall i {:trigger ss[i].longTermReference} :: 0 <= i < |ss| ==> !ss[i].longTermReference)
    && (forall i {:trigger ss[i].isRef} :: 0 < i < |ss| && !ss[i - 1].isRef && !ss[i].isRef ==>
          ss[i - 1].poc <= ss[i].poc)
  }

  /** The same for those streams alone. */
  ghost predicate KeepsOrdinary(cfg: Config) {
    forall ss: seq<Slice>, b: nat, e: nat :: Bounded(ss, b, e, cfg) && Ordinary(ss) ==> LeavesInOrder(ss, b, e, cfg)
  }

  lemma KeepsMore(cfg: Config)
    requires KeepsOrder(cfg) && MaxRefs(cfg) <= cfg.limits.maxNumFrames
    ensures KeepsOrdinary(cfg)
  {
    hide LeavesInOrder, SameSequence, InTime, EverMeets;
    forall ss: seq<Slice>, b: nat, e: nat | Bounded(ss, b, e, cfg) && Ordinary(ss)
      ensures LeavesInOrder(ss, b, e, cfg)
    {
      SlidingNeverMeets(ss, cfg);
    }
  }

  lemma PrefixBounded(ss: seq<Slice>, b: nat, e: nat, k: nat, cfg: Config)
    requires Bounded(ss, b, e, cfg) && b <= k < e
    ensures Bounded(ss, b, k + 1, cfg)
  {
    hide InTime, Begins;
  }

  lemma NextOrdinary(ss: seq<Slice>, k: nat, s: Slice)
    requires Ordinary(ss) && k <= |ss| && s.isRef && !s.idr && !s.adaptive && !s.longTermReference
    ensures Ordinary(ss[..k] + [s])
  {
  }

  /** One frame that leaves uncovered is enough for the order to be lost. */
  lemma OneEarlyFrame(ss: seq<Slice>, b: nat, e: nat, cfg: Config)
    requires Bounded(ss, b, e, cfg) && Ordinary(ss) && !AllTimely(ss, b, e, cfg)
    ensures !KeepsOrdinary(cfg)
  {
    hide LeavesInOrder, Timely, SameSequence, InTime, Ordinary;
    var k :| b <= k < e && !Timely(ss, b, k, cfg);
    PrefixBounded(ss, b, e, k, cfg);
    var s := TimelyIsNeeded(ss, b, k, true, cfg);
    NextOrdinary(ss, k + 1, s);
    assert Bounded(ss[..k + 1] + [s], b, k + 2, cfg) && Ordinary(ss[..k + 1] + [s]);
  }

  // ---- What leaves has been decoded ------------------------------------------------------------------------

  /** Of each order count no more frames are finished than the sequence has. */
  lemma {:induction false} FinishedAtMost(ss: seq<Slice>, b: nat, k: nat, cfg: Config, c: int)
    requires Within(ss, k, cfg) && b <= k && SameSequence(ss, b, k, cfg)
    ensures var st, g := Run(ss[..k + 1], cfg), StartedAt(ss, b, cfg);
            && st.discarded == g.discarded
            && Count(st.finished, PocIs(c)) <= Count(g.finished, PocIs(c)) + Count(ss[b..k + 1], SliceIs(c))
  {
    hide Run, Start, Step, Marked, Stepped, CurrentPic, Resets, FinalPoc, Count;
    assert ss[b..k + 1] == ss[b..k] + [ss[k]];
    CountAppend(ss[b..k], ss[k], SliceIs(c));
    var g := StartedAt(ss, k, cfg);
    CurrentNumbers(g, ss[k], cfg);
    CountAppend(if k == b then g.finished else Run(ss[..k], cfg).finished, CurrentPic(g, ss[k], cfg), PocIs(c));
    if k == b {
      FirstIsDecoded(ss, b, cfg);
      RunNext(ss, b, cfg);
      StartSound(Run(ss[..b], cfg), ss[b], cfg);
      MarkedSound(g, ss[b], cfg);
      MarkedEmits(g, ss[b], cfg);
      SteppedAppends(MarkedAt(ss, b, cfg), CurrentPic(g, ss[b], cfg), cfg);
      SteppedFinishes(MarkedAt(ss, b, cfg), CurrentPic(g, ss[b], cfg), cfg);
    } else {
      FinishedAtMost(ss, b, k - 1, cfg, c);
      StepAppends(Run(ss[..k], cfg), ss[k], cfg);
      RunSteps(ss, k, cfg);
    }
  }

  /** What a sequence has output is its own: some frame of it, k or earlier, has that order count. */
  lemma EmittedIsDecoded(ss: seq<Slice>, b: nat, k: nat, i: nat, cfg: Config)
    requires b <= k && Bounded(ss, b, k + 1, cfg)
    requires |MarkedAt(ss, b, cfg).emitted| <= i < |Run(ss[..k + 1], cfg).emitted|
    ensures Covered(ss, b, k, Run(ss[..k + 1], cfg).emitted[i].poc, 0)
  {
    hide Run, MarkedAt, StartedAt, SameSequence, InTime, Count, Stable, Conserved;
    var st, base := Run(ss[..k + 1], cfg), MarkedAt(ss, b, cfg).emitted;
    var c := st.emitted[i].poc;
    SequenceAppends(ss, b, k, cfg);
    BaseCount(ss, b, k + 1, cfg, c);
    FinishedAtMost(ss, b, k, cfg, c);
    PocIsStable(c);
    RunConserves(ss[..k + 1], cfg, PocIs(c));
    EmittedBeyond(st, base, i);
    OneCovers(ss, b, k, c);
  }

  lemma OneCovers(ss: seq<Slice>, b: nat, k: nat, c: int)
    requires b <= k < |ss| && Count(ss[b..k + 1], SliceIs(c)) > 0
    ensures Covered(ss, b, k, c, 0)
  {
    CountMonotone(ss[b..k + 1], SliceIs(c), SliceFrom(c), k + 1 - b);
  }

  lemma EmittedBeyond(st: State, base: seq<Pic>, i: nat)
    requires base <= st.emitted && |base| <= i < |st.emitted| && Conserved(st, PocIs(st.emitted[i].poc))
    ensures var q := PocIs(st.emitted[i].poc);
            Count(st.finished, q) > Count(base, q) + Count(st.discarded, q)
  {
    var q, rest := PocIs(st.emitted[i].poc), st.emitted[|base|..];
    assert st.emitted == base + rest;
    CountConcat(base, rest, q);
    CountAll(rest, q, |rest|);
    assert q(rest[i - |base|]);
  }

  /** Where nothing may be reordered, everything leaves covered, in any mode. */
  lemma NothingReordered(ss: seq<Slice>, b: nat, e: nat, cfg: Config)
    requires Bounded(ss, b, e, cfg) && cfg.limits.maxNumReorderFrames == 0
    ensures AllTimely(ss, b, e, cfg)
  {
    hide Run, MarkedAt, SameSequence, InTime, Covered;
    forall k | b <= k < e
      ensures Timely(ss, b, k, cfg)
    {
      var before, out := OutBefore(ss, b, k, cfg), Run(ss[..k + 1], cfg).emitted;
      PrefixBounded(ss, b, e, k, cfg);
      SequenceAppends(ss, b, k, cfg);
      forall i | |before| <= i < |out|
        ensures Covered(ss, b, k, out[i].poc, 0)
      {
        EmittedIsDecoded(ss, b, k, i, cfg);
      }
    }
  }
}
