/** Streams marked by the sliding window alone, frames and gaps together: the short-term references are at every moment
    exactly the newest reference frames since the IDR frame, as many as fit beside a long-term IDR frame. */
module H264Window {
  import opened Seqs
  import opened H264DpbSpec
  import opened H264Machine
  import opened H264Capacity
  import opened H264FrameNum
  import opened Modulo

  /** How many reference frames, inferred ones included, follow the latest IDR frame (section 7.4.3). */
  function RefsSinceIdr(ss: seq<Slice>, max: int): nat
    requires max > 0 && forall i :: 0 <= i < |ss| ==> 0 <= ss[i].frameNum < max
  {
    if ss == [] then 0
    else
      var before, s := RefsSinceIdr(ss[..|ss| - 1], max), ss[|ss| - 1];
      if s.idr then 0 else before + Missing(before, s, max) + if s.isRef then 1 else 0
  }

  /** How many reference frames are missing before this frame. */
  function Missing(refs: nat, s: Slice, max: int): nat
    requires 0 <= s.frameNum < max
  {
    (s.frameNum - refs - 1) % max
  }

  /** Frame numbers as section 7.4.3 has them: IDR first, a frame after reference frame t is numbered past t, and only
      a stream that allows gaps has frames missing. */
  ghost predicate Regular(ss: seq<Slice>, cfg: Config)
    requires Numbered(ss, cfg)
  {
    ss == [] ||
    var before, s := ss[..|ss| - 1], ss[|ss| - 1];
    var refs := RefsSinceIdr(before, cfg.maxFrameNum);
    && Regular(before, cfg)
    && (before == [] ==> s.idr)
    && (!s.idr ==> s.frameNum != refs % cfg.maxFrameNum)
    && (!s.idr && s.frameNum != (refs + 1) % cfg.maxFrameNum ==> cfg.gapsAllowed)
  }

  /** The numbers of the last k reference frames up to the one numbered t. */
  function Recent(t: nat, k: nat, max: nat): (r: seq<int>)
    requires max > 0 && k <= t + 1
    ensures |r| == k && forall i {:trigger r[i]} :: 0 <= i < k ==> r[i] == (t - k + 1 + i) % max
  {
    seq(k, i requires 0 <= i < k => (t - k + 1 + i) % max)
  }

  lemma AheadOfMods(u: nat, v: nat, max: nat)
    requires u <= v && max > 0 && v - u < max
    ensures Ahead(u % max, v % max, max) == v - u
  {
    DivMod(u, max);
    DivMod(v, max);
    RoundsDiffer(u, v, max);
    RoundsApart(v - u, v / max - u / max, v % max, u % max, max);
  }

  lemma NextOfMod(t: nat, max: nat)
    requires max > 0
    ensures Next(t % max, max) == (t + 1) % max
  {
    DivMod(t, max);
    ModUnique(t + 1, max, if t % max + 1 == max then t / max + 1 else t / max,
                      if t % max + 1 == max then 0 else t % max + 1);
  }

  /** What holds of the short-term references among each other holds in the whole list. */
  lemma {:induction false} ShortsDecide(pics: seq<Pic>, n: nat, rel: (Pic, Pic) -> bool)
    requires n <= |pics| && Pairwise(FilterTo(pics, n, IsShort), rel)
    requires forall a: Pic, b: Pic :: !IsShort(a) || !IsShort(b) ==> rel(a, b)
    ensures forall i, j :: 0 <= i < j < n ==> rel(pics[i], pics[j])
  {
    if n > 0 {
      var f := FilterTo(pics, n - 1, IsShort);
      assert Pairwise(f, rel) by {
        forall a, b | 0 <= a < b < |f|
          ensures rel(f[a], f[b])
        {
          assert FilterTo(pics, n, IsShort)[a] == f[a] && FilterTo(pics, n, IsShort)[b] == f[b];
        }
      }
      ShortsDecide(pics, n - 1, rel);
      FilterMembers(pics, n - 1, IsShort);
      forall i | 0 <= i < n - 1
        ensures rel(pics[i], pics[n - 1])
      {
        if IsShort(pics[i]) && IsShort(pics[n - 1]) {
          assert pics[..n - 1][i] in f;
          var a :| 0 <= a < |f| && f[a] == pics[i];
          assert FilterTo(pics, n, IsShort)[a] == f[a] && FilterTo(pics, n, IsShort)[|f|] == pics[n - 1];
        }
      }
    }
  }

  lemma RecentWindow(pics: seq<Pic>, t: nat, k: nat, max: nat)
    requires 0 < max && k <= t + 1 && k < max && ShortNums(pics) == Recent(t, k, max)
    ensures Window(pics, (t + 1) % max, 0, max)
  {
    var f, n := Filter(pics, IsShort), (t + 1) % max;
    forall i | 0 <= i < |f|
      ensures 0 <= f[i].frameNum < max && Ahead(f[i].frameNum, n, max) == k - i
    {
      assert f[i].frameNum == ShortNums(pics)[i] == Recent(t, k, max)[i];
      AheadOfMods(t - k + 1 + i, t + 1, max);
    }
    assert Pairwise(f, Farther(n, max));
    ShortsDecide(pics, |pics|, Farther(n, max));
    FilterMembers(pics, |pics|, IsShort);
    forall i | 0 <= i < |pics|
      ensures Within(n, 0, max)(pics[i])
    {
      if IsShort(pics[i]) {
        assert pics[..|pics|][i] in f;
      }
    }
  }

  lemma RecentGrows(t: nat, k: nat, room: nat, max: nat)
    requires 0 < max && k <= t + 1
    ensures Newest(Recent(t, k, max), room) + [(t + 1) % max] == Recent(t + 1, Min(k, room) + 1, max)
  {
  }

  /** The buffer after reference frame t. */
  ghost predicate AtFrame(pics: seq<Pic>, t: nat, longs: nat, cfg: Config)
    requires cfg.maxFrameNum > 0
  {
    && longs <= 1
    && Fits(pics, cfg)
    && Count(pics, IsLong) == longs
    && ShortNums(pics) == Recent(t, Min(t + 1, MaxRefs(cfg)) - longs, cfg.maxFrameNum)
  }

  ghost predicate Roomy(cfg: Config) { MaxRefs(cfg) < cfg.maxFrameNum && MaxRefs(cfg) <= cfg.limits.maxNumFrames }

  lemma InferOne(st: State, t: nat, longs: nat, poc: int, cfg: Config)
    requires Roomy(cfg) && AtFrame(st.pics, t, longs, cfg) && longs < MaxRefs(cfg)
    ensures var g := GapStep(st, (t + 1) % cfg.maxFrameNum, poc, cfg);
            g.ok && AtFrame(g.st.pics, t + 1, longs, cfg)
  {
    hide GapStep, Newest, Recent, ShortNums, Count, Window;
    var f, max := MaxRefs(cfg), cfg.maxFrameNum;
    GapStepFits(st, (t + 1) % max, poc, cfg);
    RecentWindow(st.pics, t, Min(t + 1, f) - longs, max);
    GapStepNums(st, (t + 1) % max, 0, poc, cfg);
    RecentGrows(t, Min(t + 1, f) - longs, f - 1 - longs, max);
  }

  lemma {:induction false} InferMany(st: State, t: nat, longs: nat, target: int, poc: int, cfg: Config)
    requires Roomy(cfg) && AtFrame(st.pics, t, longs, cfg) && 0 <= target < cfg.maxFrameNum && longs < MaxRefs(cfg)
    ensures var n := (t + 1) % cfg.maxFrameNum;
            var g := GapLoop(st, n, target, poc, cfg);
            g.ok && AtFrame(g.st.pics, t + Ahead(n, target, cfg.maxFrameNum), longs, cfg)
    decreases Ahead((t + 1) % cfg.maxFrameNum, target, cfg.maxFrameNum)
  {
    hide GapStep, AtFrame, Next;
    var n := (t + 1) % cfg.maxFrameNum;
    if n != target {
      NextOfMod(t + 1, cfg.maxFrameNum);
      InferOne(st, t, longs, poc, cfg);
      InferMany(GapStep(st, n, poc, cfg).st, t + 1, longs, target, poc, cfg);
    }
  }

  lemma MissingIsAhead(t: nat, s: Slice, max: int)
    requires 0 <= s.frameNum < max
    ensures Missing(t, s, max) == Ahead((t + 1) % max, s.frameNum, max)
    ensures (t + Missing(t, s, max) + 1) % max == s.frameNum
  {
    var c, q, a := (t + 1) % max, (t + 1) / max, Ahead((t + 1) % max, s.frameNum, max);
    DivMod(t + 1, max);
    var wraps := if c <= s.frameNum then 0 else 1;
    assert s.frameNum - t - 1 == (-wraps - q) * max + a;
    ModUnique(s.frameNum - t - 1, max, -wraps - q, a);
    assert t + a + 1 == (q + wraps) * max + s.frameNum;
    ModUnique(t + a + 1, max, q + wraps, s.frameNum);
  }

  lemma RenumberedAt(pics: seq<Pic>, t: nat, longs: nat, cfg: Config)
    requires Roomy(cfg) && AtFrame(pics, t, longs, cfg)
    ensures var n := (t + 1) % cfg.maxFrameNum;
            var r := Map(pics, Renumber(n, cfg.maxFrameNum));
            AtFrame(r, t, longs, cfg) && Pairwise(r, WrapsIncrease)
  {
    hide Recent;
    var n, k := (t + 1) % cfg.maxFrameNum, Min(t + 1, MaxRefs(cfg)) - longs;
    RenumberCounts(pics, n, cfg.maxFrameNum);
    SameShorts(Map(pics, Renumber(n, cfg.maxFrameNum)), pics, |pics|);
    RecentWindow(pics, t, k, cfg.maxFrameNum);
    WindowWraps(pics, n, 0, cfg.maxFrameNum);
  }

  lemma AtFrameStores(pics: seq<Pic>, t: nat, longs: nat, cfg: Config)
    requires cfg.maxFrameNum > 0 && AtFrame(pics, t, longs, cfg)
    ensures pics != []
  {
  }

  /** Before a frame that is not an IDR frame: the missing ones have been inferred. */
  lemma StartAt(st: State, s: Slice, t: nat, longs: nat, cfg: Config)
    requires ValidNumbers(st, s, cfg) && Roomy(cfg) && AtFrame(st.pics, t, longs, cfg) && !s.idr
    requires st.prevRefFrameNum == t % cfg.maxFrameNum && s.frameNum != t % cfg.maxFrameNum
    requires s.frameNum != (t + 1) % cfg.maxFrameNum ==> cfg.gapsAllowed && longs < MaxRefs(cfg)
    ensures var g := Start(st, s, cfg);
            && g.ok && AtFrame(g.st.pics, t + Missing(t, s, cfg.maxFrameNum), longs, cfg)
            && Pairwise(g.st.pics, WrapsIncrease) && g.st.prevRefFrameNum == st.prevRefFrameNum
  {
    hide GapLoop, AtFrame, Pairwise;
    var max := cfg.maxFrameNum;
    MissingIsAhead(t, s, max);
    NextOfMod(t, max);
    AtFrameStores(st.pics, t, longs, cfg);
    if s.frameNum != (t + 1) % max {
      InferMany(st, t, longs, s.frameNum, s.gapPoc, cfg);
    }
    RenumberedAt(HandleGap(st, s, cfg).st.pics, t + Missing(t, s, max), longs, cfg);
  }

  lemma CleanKeepsShorts(pics: seq<Pic>)
    ensures ShortNums(DeleteUnused(pics)) == ShortNums(pics)
  {
    FilterTwice(pics, InUse, IsShort);
  }

  /** The short-term references left for the current frame. */
  lemma MarkedShorts(st: State, s: Slice, cfg: Config)
    requires Plain(s) && Pairwise(st.pics, WrapsIncrease)
    ensures ShortNums(Marked(st, s, cfg).pics)
         == if !s.isRef then ShortNums(st.pics)
            else if s.idr then []
            else Newest(ShortNums(st.pics), MaxRefs(cfg) - 1 - Count(st.pics, IsLong))
  {
    hide Slide, Count, Newest, Filter, Pairwise;
    CleanKeepsShorts(MarkedState(st, s, cfg).pics);
    if s.isRef {
      if s.idr {
        NoShorts(Map(st.pics, Unmark));
      } else {
        SlideKeepsNewest(st.pics, MaxRefs(cfg));
        NewestMap(Filter(st.pics, IsShort), MaxRefs(cfg) - 1 - Count(st.pics, IsLong));
      }
    }
  }

  lemma NoShorts(pics: seq<Pic>)
    requires forall k :: 0 <= k < |pics| ==> !IsShort(pics[k])
    ensures Filter(pics, IsShort) == []
  {
    FilterNone(pics, IsShort, |pics|);
  }

  lemma FinishShorts(st: State, s: Slice, cfg: Config)
    ensures ShortNums(Finish(st, s, cfg).pics)
         == ShortNums(Marked(st, s, cfg).pics)
            + if IsShort(CurrentPic(st, s, cfg)) then [CurrentPic(st, s, cfg).frameNum] else []
  {
    hide Marked, MarkedState, BumpWhile, ShortNums;
    var cur, t := CurrentPic(st, s, cfg), Marked(st, s, cfg);
    BumpWhileKeepsShorts(t, Some(cur), cfg.mode, cfg);
    AppendShort(BumpWhile(t, Some(cur), cfg.mode, cfg).pics, cur);
    BumpWhileKeepsShorts(Insert(t, cur, cfg), None, cfg.mode, cfg);
  }

  lemma FinishFitsAt(st: State, s: Slice, longs: nat, cfg: Config)
    requires Fits(st.pics, cfg) && MaxRefs(cfg) <= cfg.limits.maxNumFrames && Plain(s) && (s.idr ==> s.isRef)
    requires Count(st.pics, IsLong) == longs && (s.isRef ==> longs < MaxRefs(cfg))
    ensures Fits(Finish(st, s, cfg).pics, cfg)
    ensures Count(Finish(st, s, cfg).pics, IsLong)
         == if s.idr then (if s.longTermReference then 1 else 0) else longs
  {
    hide Finish, Marked, Count;
    FinishFits(st, s, cfg);
    SlidingMarkedCounts(st, s, cfg);
    FinishLongs(st, s, cfg);
  }

  /** The short-term frames after one frame of a plain stream. */
  lemma FinishShortsAt(st: State, s: Slice, t: nat, longs: nat, cfg: Config)
    requires Roomy(cfg) && AtFrame(st.pics, t, longs, cfg) && Pairwise(st.pics, WrapsIncrease)
    requires !s.idr && Plain(s) && (s.isRef ==> s.frameNum == (t + 1) % cfg.maxFrameNum && longs < MaxRefs(cfg))
    ensures var u := if s.isRef then t + 1 else t;
            ShortNums(Finish(st, s, cfg).pics) == Recent(u, Min(u + 1, MaxRefs(cfg)) - longs, cfg.maxFrameNum)
  {
    hide Finish, Marked, CurrentPic, Recent, ShortNums, Newest, Count, Pairwise, Fits;
    MarkedShorts(st, s, cfg);
    FinishShorts(st, s, cfg);
    CurrentShort(st, s, cfg);
    if s.isRef {
      RecentGrows(t, Min(t + 1, MaxRefs(cfg)) - longs, MaxRefs(cfg) - 1 - longs, cfg.maxFrameNum);
    }
  }

  /** The current frame of a plain stream becomes a short-term reference exactly when it is a reference. */
  lemma CurrentShort(st: State, s: Slice, cfg: Config)
    requires !s.idr && Plain(s)
    ensures IsShort(CurrentPic(st, s, cfg)) <==> s.isRef
    ensures CurrentPic(st, s, cfg).frameNum == s.frameNum
  {
    CurrentKeeps(st, s, cfg);
  }

  lemma FinishAt(st: State, s: Slice, t: nat, longs: nat, cfg: Config)
    requires Roomy(cfg) && AtFrame(st.pics, t, longs, cfg) && Pairwise(st.pics, WrapsIncrease)
    requires !s.idr && Plain(s) && (s.isRef ==> s.frameNum == (t + 1) % cfg.maxFrameNum && longs < MaxRefs(cfg))
    ensures AtFrame(Finish(st, s, cfg).pics, if s.isRef then t + 1 else t, longs, cfg)
  {
    hide Finish, Recent, ShortNums, Count, Pairwise;
    FinishFitsAt(st, s, longs, cfg);
    FinishShortsAt(st, s, t, longs, cfg);
  }

  /** An IDR frame starts over. */
  lemma IdrAt(st: State, s: Slice, cfg: Config)
    requires ValidNumbers(st, s, cfg) && Roomy(cfg) && Fits(st.pics, cfg)
    requires s.idr && s.isRef && s.frameNum == 0
    ensures AtFrame(Step(st, s, cfg).pics, 0, if s.longTermReference then 1 else 0, cfg)
  {
    hide Start, Finish, Marked, Count;
    StartFits(st, s, cfg);
    var g := Start(st, s, cfg).st;
    IdrStart(st, s, cfg);
    FinishFitsAt(g, s, 0, cfg);
    MarkedShorts(g, s, cfg);
    FinishShorts(g, s, cfg);
  }

  lemma IdrStart(st: State, s: Slice, cfg: Config)
    requires ValidNumbers(st, s, cfg) && s.idr && s.frameNum == 0
    ensures Start(st, s, cfg).ok && Start(st, s, cfg).st.pics == []
  {
  }

  lemma StepAt(st: State, s: Slice, t: nat, longs: nat, cfg: Config)
    requires ValidNumbers(st, s, cfg) && Roomy(cfg) && AtFrame(st.pics, t, longs, cfg) && !s.idr && Plain(s)
    requires st.prevRefFrameNum == t % cfg.maxFrameNum && s.frameNum != t % cfg.maxFrameNum
    requires s.frameNum != (t + 1) % cfg.maxFrameNum ==> cfg.gapsAllowed && longs < MaxRefs(cfg)
    requires s.isRef ==> longs < MaxRefs(cfg)
    ensures var m := Missing(t, s, cfg.maxFrameNum);
            AtFrame(Step(st, s, cfg).pics, if s.isRef then t + m + 1 else t + m, longs, cfg)
    ensures Start(st, s, cfg).ok
  {
    hide Start, Finish, AtFrame, Pairwise;
    var m := Missing(t, s, cfg.maxFrameNum);
    StartAt(st, s, t, longs, cfg);
    MissingIsAhead(t, s, cfg.maxFrameNum);
    FinishAt(Start(st, s, cfg).st, s, t + m, longs, cfg);
  }

  lemma PrevRef(st: State, s: Slice, cfg: Config)
    requires ValidNumbers(st, s, cfg) && Plain(s) && (s.idr ==> s.isRef && s.frameNum == 0)
    ensures Step(st, s, cfg).prevRefFrameNum
         == if s.isRef && Start(st, s, cfg).ok then s.frameNum else if s.idr then 0 else st.prevRefFrameNum
  {
    hide Start, Finish;
    StartSound(st, s, cfg);
    FinishSound(Start(st, s, cfg).st, s, cfg);
    CurrentNumbers(Start(st, s, cfg).st, s, cfg);
  }

  // ---- Runs ---------------------------------------------------------------------------------------------------

  /** The state agrees with the frame numbers decoded so far. */
  ghost predicate Tracks(st: State, ss: seq<Slice>, cfg: Config)
    requires Numbered(ss, cfg)
  {
    var t := RefsSinceIdr(ss, cfg.maxFrameNum);
    && st.prevRefFrameNum == t % cfg.maxFrameNum
    && AtFrame(st.pics, t, if LongFromIdr(ss) then 1 else 0, cfg)
  }

  /** The two frames that lead it astray: a non-reference frame with frames missing before it, and a reference frame
      after an IDR frame that holds the only reference as a long-term one. */
  ghost predicate Astray(before: seq<Slice>, s: Slice, cfg: Config)
    requires Numbered(before, cfg) && 0 <= s.frameNum < cfg.maxFrameNum
  {
    && !s.idr
    && ((!s.isRef && s.frameNum != (RefsSinceIdr(before, cfg.maxFrameNum) + 1) % cfg.maxFrameNum)
        || (s.isRef && MaxRefs(cfg) == 1 && LongFromIdr(before)))
  }

  lemma IdrTracks(st: State, before: seq<Slice>, s: Slice, cfg: Config)
    requires Numbered(before, cfg) && 0 <= s.frameNum < cfg.maxFrameNum && Roomy(cfg)
    requires Sound(st, cfg) && Fits(st.pics, cfg)
    requires s.idr && s.isRef && s.frameNum == 0
    ensures Tracks(Step(st, s, cfg), before + [s], cfg)
  {
    hide Start, Step, AtFrame;
    assert (before + [s])[..|before|] == before;
    IdrStart(st, s, cfg);
    IdrAt(st, s, cfg);
    PrevRef(st, s, cfg);
  }

  lemma FrameTracks(st: State, before: seq<Slice>, s: Slice, cfg: Config)
    requires Numbered(before, cfg) && 0 <= s.frameNum < cfg.maxFrameNum && Roomy(cfg) && Sound(st, cfg)
    requires Tracks(st, before, cfg) && !Astray(before, s, cfg)
    requires !s.idr && Plain(s) && Regular(before + [s], cfg)
    ensures Tracks(Step(st, s, cfg), before + [s], cfg)
  {
    hide Start, Step, AtFrame, Missing;
    var t := RefsSinceIdr(before, cfg.maxFrameNum);
    assert (before + [s])[..|before|] == before;
    MissingIsAhead(t, s, cfg.maxFrameNum);
    StepAt(st, s, t, if LongFromIdr(before) then 1 else 0, cfg);
    PrevRef(st, s, cfg);
  }

  lemma DistantNumbers(t: nat, m: nat, max: nat)
    requires 0 < m < max
    ensures (t + m) % max != t % max
  {
    AheadOfMods(t, t + m, max);
  }

  /** After a non-reference frame PrevRefFrameNum stands still, but the standard's does not. */
  lemma NonReferenceStrays(st: State, before: seq<Slice>, s: Slice, cfg: Config)
    requires Numbered(before, cfg) && 0 <= s.frameNum < cfg.maxFrameNum
    requires Sound(st, cfg) && Tracks(st, before, cfg)
    requires !s.idr && !s.isRef && s.frameNum != (RefsSinceIdr(before, cfg.maxFrameNum) + 1) % cfg.maxFrameNum
    ensures !Tracks(Step(st, s, cfg), before + [s], cfg)
  {
    hide Start, Step, AtFrame, Missing;
    var t := RefsSinceIdr(before, cfg.maxFrameNum);
    assert (before + [s])[..|before|] == before;
    PrevRef(st, s, cfg);
    MissingIsAhead(t, s, cfg.maxFrameNum);
    DistantNumbers(t, Missing(t, s, cfg.maxFrameNum), cfg.maxFrameNum);
  }

  /** A window with nothing to evict: the frame is stored as a second reference, or dropped behind a gap. */
  lemma SingleReferenceStrays(st: State, before: seq<Slice>, s: Slice, cfg: Config)
    requires Numbered(before, cfg) && 0 <= s.frameNum < cfg.maxFrameNum && Roomy(cfg)
    requires Sound(st, cfg) && Tracks(st, before, cfg)
    requires Slides(s) && Plain(s) && MaxRefs(cfg) == 1 && LongFromIdr(before) && Regular(before + [s], cfg)
    ensures !Tracks(Step(st, s, cfg), before + [s], cfg)
  {
    hide Start, Finish, Missing, Fits, IsGap;
    var t, max := RefsSinceIdr(before, cfg.maxFrameNum), cfg.maxFrameNum;
    assert (before + [s])[..|before|] == before;
    MissingIsAhead(t, s, max);
    if s.frameNum == (t + 1) % max {
      StartAt(st, s, t, 1, cfg);
      var g := Start(st, s, cfg).st;
      MarkedShorts(g, s, cfg);
      FinishShorts(g, s, cfg);
      CurrentKeeps(g, s, cfg);
      CurrentNumbers(g, s, cfg);
    } else {
      SingleReferenceDrops(st, s, t, cfg);
      PrevRef(st, s, cfg);
      WholeRound(t, s, max);
      DistantNumbers(t, Missing(t, s, max) + 1, max);
    }
  }

  lemma WholeRound(t: nat, s: Slice, max: int)
    requires 0 <= s.frameNum < max && s.frameNum != t % max
    ensures Missing(t, s, max) + 1 < max
  {
    var m := Missing(t, s, max);
    MissingIsAhead(t, s, max);
    if m + 1 == max {
      DivMod(t, max);
      ModUnique(t + max, max, t / max + 1, t % max);
    }
  }

  lemma SingleReferenceDrops(st: State, s: Slice, t: nat, cfg: Config)
    requires ValidNumbers(st, s, cfg) && Roomy(cfg) && AtFrame(st.pics, t, 1, cfg) && !s.idr && MaxRefs(cfg) == 1
    requires st.prevRefFrameNum == t % cfg.maxFrameNum && s.frameNum != t % cfg.maxFrameNum
    requires s.frameNum != (t + 1) % cfg.maxFrameNum && cfg.gapsAllowed
    ensures !Start(st, s, cfg).ok
  {
    hide Start, Count;
    NextOfMod(t, cfg.maxFrameNum);
    AtFrameStores(st.pics, t, 1, cfg);
    StartFits(st, s, cfg);
  }

  /** Every moment of a run so far. */
  ghost predicate AlwaysTracks(ss: seq<Slice>, cfg: Config)
    requires Numbered(ss, cfg)
  {
    ss == [] || (AlwaysTracks(ss[..|ss| - 1], cfg) && Tracks(Run(ss, cfg), ss, cfg))
  }

  ghost predicate EverAstray(ss: seq<Slice>, cfg: Config)
    requires Numbered(ss, cfg)
  {
    ss != [] && (EverAstray(ss[..|ss| - 1], cfg) || Astray(ss[..|ss| - 1], ss[|ss| - 1], cfg))
  }

  /** Over any regular sliding-window run, PrevRefFrameNum is the standard's and the short-term references are exactly
      the newest reference frames since the IDR frame, at every moment, if and only if no frame leads it astray. */
  lemma {:induction false} RunKeepsNewest(ss: seq<Slice>, cfg: Config)
    requires Numbered(ss, cfg) && SlidingOnly(ss) && Regular(ss, cfg) && Roomy(cfg)
    ensures AlwaysTracks(ss, cfg) <==> !EverAstray(ss, cfg)
  {
    hide Step, Tracks, Start, MaxRefs, Roomy, LongFromIdr;
    if ss != [] {
      var before, s := ss[..|ss| - 1], ss[|ss| - 1];
      assert ss == before + [s];
      RunKeepsNewest(before, cfg);
      if AlwaysTracks(before, cfg) {
        StepKeepsNewest(Run(before, cfg), before, s, cfg);
      }
    }
  }

  lemma StepKeepsNewest(st: State, before: seq<Slice>, s: Slice, cfg: Config)
    requires Numbered(before, cfg) && 0 <= s.frameNum < cfg.maxFrameNum
    requires SlidingOnly([s]) && Regular(before + [s], cfg)
    requires Roomy(cfg) && Sound(st, cfg) && if before == [] then st == Initial else Tracks(st, before, cfg)
    ensures Tracks(Step(st, s, cfg), before + [s], cfg) <==> !Astray(before, s, cfg)
  {
    hide Step, Start, LongFromIdr;
    assert (before + [s])[..|before|] == before;
    assert [s][0] == s;
    if s.idr {
      IdrTracks(st, before, s, cfg);
    } else if !Astray(before, s, cfg) {
      FrameTracks(st, before, s, cfg);
    } else if !s.isRef {
      NonReferenceStrays(st, before, s, cfg);
    } else {
      SingleReferenceStrays(st, before, s, cfg);
    }
  }
}
