/** FrameNumWrap and gaps in frame_num: while the short-term references lie less than MaxFrameNum behind, wrapped
    numbers order them by decoding order, the sliding window evicts the oldest, and a gap leaves exactly the newest. */
module H264FrameNum {
  import opened Seqs
  import opened H264DpbSpec
  import opened H264Machine
  import opened H264Keep
  import opened H264Capacity
  import opened Modulo

  // ---- FrameNumWrap ----------------------------------------------------------------------------------------

  lemma AheadIsMod(from: int, to: int, max: int)
    requires 0 <= from < max && 0 <= to < max
    ensures Ahead(from, to, max) == (to - from) % max
  {
    ModUnique(to - from, max, if from <= to then 0 else -1, Ahead(from, to, max));
  }

  /** A gap of d whole rounds and c - f more is the distance around one round only if it is shorter than a round. */
  lemma RoundsApart(gap: nat, d: int, c: nat, f: nat, max: nat)
    requires c < max && f < max && gap == d * max + (c - f)
    ensures gap < max <==> gap == if f <= c then c - f else c - f + max
  {
    assert d >= 2 ==> d * max >= 2 * max;
    assert d <= -1 ==> d * max + max <= 0;
  }

  /** u and now count reference frames without wrapping. The wrapped number is the true distance if and only if the
      frame lies less than MaxFrameNum behind. */
  lemma WrapIsExact(p: Pic, u: nat, now: nat, max: nat)
    requires IsShort(p) && max > 0 && u <= now && p.frameNum == u % max
    ensures Renumber(now % max, max)(p).frameNumWrap == now % max - (now - u) <==> now - u < max
  {
    DivMod(u, max);
    DivMod(now, max);
    RoundsDiffer(u, now, max);
    RoundsApart(now - u, now / max - u / max, now % max, u % max, max);
  }

  lemma RoundsDiffer(u: nat, now: nat, max: nat)
    requires max > 0 && u == u / max * max + u % max && now == now / max * max + now % max
    ensures now - u == (now / max - u / max) * max + (now % max - u % max)
  {
  }

  /** So wrapped numbers sort short-term references by age. */
  lemma WrapOrdersByAge(p: Pic, q: Pic, u: nat, v: nat, now: nat, max: nat)
    requires IsShort(p) && IsShort(q) && max > 0 && u <= now && v <= now
    requires p.frameNum == u % max && q.frameNum == v % max
    requires now - u < max && now - v < max
    ensures Renumber(now % max, max)(p).frameNumWrap < Renumber(now % max, max)(q).frameNumWrap <==> u < v
  {
    WrapIsExact(p, u, now, max);
    WrapIsExact(q, v, now, max);
  }

  // ---- The sliding window ------------------------------------------------------------------------------------

  predicate WrapsIncrease(a: Pic, b: Pic) { IsShort(a) && IsShort(b) ==> a.frameNumWrap < b.frameNumWrap }

  function Newest<T>(s: seq<T>, n: int): (r: seq<T>)
    ensures |r| == if n < 0 then 0 else if n < |s| then n else |s|
  {
    if n <= 0 then [] else if n < |s| then s[|s| - n..] else s
  }

  lemma FirstShortIsLowest(pics: seq<Pic>)
    requires Pairwise(pics, WrapsIncrease)
    ensures LowestShortTo(pics, |pics|) == Find(pics, IsShort)
  {
    var i, j := LowestShortTo(pics, |pics|), Find(pics, IsShort);
    assert 0 <= j < i ==> WrapsIncrease(pics[j], pics[i]);
  }

  lemma UnmarkFirstShort(pics: seq<Pic>, i: nat)
    requires Find(pics, IsShort) == i
    ensures Filter(pics, IsShort) == [pics[i]] + Filter(pics[i := Unmark(pics[i])], IsShort)
    ensures Pairwise(pics, WrapsIncrease) ==> Pairwise(pics[i := Unmark(pics[i])], WrapsIncrease)
  {
    var r := pics[i := Unmark(pics[i])];
    FilterAt(pics, i, IsShort);
    FilterAt(r, i, IsShort);
    assert r[..i] == pics[..i] && r[i + 1..] == pics[i + 1..];
    FilterNone(pics[..i], IsShort, i);
    if Pairwise(pics, WrapsIncrease) {
      forall a, b | 0 <= a < b < |r|
        ensures WrapsIncrease(r[a], r[b])
      {
        assert WrapsIncrease(pics[a], pics[b]);
      }
    }
  }

  lemma {:induction false} RefsAreShortAndLong(pics: seq<Pic>, n: nat)
    requires n <= |pics|
    ensures CountTo(pics, n, IsRef) == CountTo(pics, n, IsShort) + CountTo(pics, n, IsLong)
  {
    if n > 0 {
      RefsAreShortAndLong(pics, n - 1);
    }
  }

  lemma NewestAfterFirst<T>(x: T, s: seq<T>, n: int)
    requires n <= |s|
    ensures Newest([x] + s, n) == Newest(s, n)
  {
  }

  /** The window evicts the oldest short-term references and keeps as many as fit below the limit. */
  lemma {:induction false} SlideKeepsNewest(pics: seq<Pic>, max: nat)
    requires Pairwise(pics, WrapsIncrease)
    ensures Filter(Slide(pics, max).pics, IsShort)
         == Newest(Filter(pics, IsShort), max - 1 - Count(pics, IsLong))
    decreases Count(pics, IsRef)
  {
    hide Pairwise, Newest;
    var i := LowestShortTo(pics, |pics|);
    FirstShortIsLowest(pics);
    RefsAreShortAndLong(pics, |pics|);
    FilterCount(pics, IsShort, |pics|);
    if Count(pics, IsRef) >= max && i >= 0 {
      var r := pics[i := Unmark(pics[i])];
      UnmarkCount(pics, i);
      CountUpdate(pics, i, Unmark(pics[i]), IsLong);
      UnmarkFirstShort(pics, i);
      SlideKeepsNewest(r, max);
      NewestAfterFirst(pics[i], Filter(r, IsShort), max - 1 - Count(pics, IsLong));
    } else {
      if i < 0 {
        FilterNone(pics, IsShort, |pics|);
      }
      NewestOfFew(Filter(pics, IsShort), max - 1 - Count(pics, IsLong));
    }
  }

  lemma NewestOfFew<T>(s: seq<T>, n: int)
    requires |s| <= n || s == []
    ensures Newest(s, n) == s
  {
  }

  // ---- Gaps ----------------------------------------------------------------------------------------------------

  function NumOf(p: Pic): int { p.frameNum }

  /** The frame numbers of the short-term references, in list order. */
  function ShortNums(pics: seq<Pic>): seq<int> { Map(Filter(pics, IsShort), NumOf) }

  /** Farther behind n first. */
  function Farther(n: int, max: int): (Pic, Pic) -> bool {
    (a: Pic, b: Pic) => IsShort(a) && IsShort(b) ==> Ahead(a.frameNum, n, max) > Ahead(b.frameNum, n, max)
  }

  /** Behind n, and still less than MaxFrameNum behind d steps later. */
  function Within(n: int, d: int, max: int): Pic -> bool {
    (p: Pic) => IsShort(p) ==>
      0 <= p.frameNum < max && 0 < Ahead(p.frameNum, n, max) && Ahead(p.frameNum, n, max) + d < max
  }

  ghost predicate Window(pics: seq<Pic>, n: int, d: int, max: int) {
    Keeps(pics, Farther(n, max), Within(n, d, max))
  }

  lemma WindowLasts(n: int, d: int, max: int)
    ensures Lasting(Farther(n, max), Within(n, d, max))
  {
  }

  lemma {:induction false} SameShorts(a: seq<Pic>, b: seq<Pic>, n: nat)
    requires n <= |a| && n <= |b|
    requires forall i :: 0 <= i < n ==> IsShort(a[i]) == IsShort(b[i]) && a[i].frameNum == b[i].frameNum
    ensures Map(FilterTo(a, n, IsShort), NumOf) == Map(FilterTo(b, n, IsShort), NumOf)
  {
    if n > 0 {
      SameShorts(a, b, n - 1);
      MapAppend(FilterTo(a, n - 1, IsShort), a[n - 1], NumOf);
      MapAppend(FilterTo(b, n - 1, IsShort), b[n - 1], NumOf);
    }
  }

  lemma OutputKeepsShorts(pics: seq<Pic>, i: nat)
    requires i < |pics|
    ensures ShortNums(Output(pics, i, false)) == ShortNums(pics)
  {
    var marked := pics[i := pics[i].(needed := false)];
    SameShorts(marked, pics, |pics|);
    FilterAt(marked, i, IsShort);
    FilterConcat(marked[..i], marked[i + 1..], IsShort);
  }

  lemma {:induction false} BumpWhileKeepsShorts(st: State, toInsert: Option<Pic>, mode: BumpMode, cfg: Config)
    ensures ShortNums(BumpWhile(st, toInsert, mode, cfg).pics) == ShortNums(st.pics)
    decreases Count(st.pics, Waiting)
  {
    hide NeedsBump, Output, ShortNums;
    if NeedsBump(st.pics, cfg.limits, st.lastPoc, st.lastNonRef, toInsert, mode) && Lowest(st.pics) >= 0 {
      OutputKeepsShorts(st.pics, Lowest(st.pics));
      BumpWhileKeepsShorts(BumpOnce(st, false, cfg), toInsert, mode, cfg);
    }
  }

  /** Renumbering turns distances behind n into increasing wrapped numbers. */
  lemma WindowWraps(pics: seq<Pic>, n: int, d: int, max: int)
    requires 0 <= n < max && Window(pics, n, d, max)
    ensures Pairwise(Map(pics, Renumber(n, max)), WrapsIncrease)
  {
    var r := Map(pics, Renumber(n, max));
    forall i, j | 0 <= i < j < |r|
      ensures WrapsIncrease(r[i], r[j])
    {
      assert Farther(n, max)(pics[i], pics[j]);
      assert Within(n, d, max)(pics[i]) && Within(n, d, max)(pics[j]);
    }
  }

  /** One number further on, with the inferred frame in the list. */
  lemma WindowMoves(pics: seq<Pic>, n: int, d: int, poc: int, max: int)
    requires 0 <= n < max && 0 < d < max && Window(pics, n, d, max)
    ensures Window(pics + [GapFrame(n, poc)], Next(n, max), d - 1, max)
  {
    var r, m := pics + [GapFrame(n, poc)], Next(n, max);
    forall i | 0 <= i < |r|
      ensures Within(m, d - 1, max)(r[i])
      ensures i < |pics| && IsShort(r[i]) ==> Ahead(r[i].frameNum, m, max) == Ahead(r[i].frameNum, n, max) + 1
    {
      if i < |pics| {
        assert Within(n, d, max)(pics[i]);
      }
    }
    forall i, j | 0 <= i < j < |r|
      ensures Farther(m, max)(r[i], r[j])
    {
      assert Within(n, d, max)(pics[i]);
      if j < |pics| {
        assert Farther(n, max)(pics[i], pics[j]);
      }
    }
  }

  /** The buffer of a gap step just before bumping. */
  function Cleared(pics: seq<Pic>, n: int, cfg: Config): seq<Pic> {
    DeleteUnused(Slide(Map(pics, Renumber(n, cfg.maxFrameNum)), MaxRefs(cfg)).pics)
  }

  lemma ClearedShorts(pics: seq<Pic>, n: int, d: int, cfg: Config)
    requires 0 <= n < cfg.maxFrameNum && Window(pics, n, d, cfg.maxFrameNum)
    ensures ShortNums(Cleared(pics, n, cfg)) == Newest(ShortNums(pics), MaxRefs(cfg) - 1 - Count(pics, IsLong))
  {
    hide Slide, Count, Newest, Pairwise, Window;
    var max := cfg.maxFrameNum;
    var renumbered := Map(pics, Renumber(n, max));
    var slid := Slide(renumbered, MaxRefs(cfg)).pics;
    WindowWraps(pics, n, d, max);
    SlideKeepsNewest(renumbered, MaxRefs(cfg));
    RenumberCounts(pics, n, max);
    FilterTwice(slid, InUse, IsShort);
    SameShorts(renumbered, pics, |pics|);
    NewestMap(Filter(renumbered, IsShort), MaxRefs(cfg) - 1 - Count(pics, IsLong));
  }

  lemma NewestMap(s: seq<Pic>, n: int)
    ensures Map(Newest(s, n), NumOf) == Newest(Map(s, NumOf), n)
  {
  }

  lemma ClearedWindow(pics: seq<Pic>, n: int, d: int, cfg: Config)
    requires Window(pics, n, d, cfg.maxFrameNum)
    ensures Window(Cleared(pics, n, cfg), n, d, cfg.maxFrameNum)
  {
    hide Slide, Keeps, Lasting, AllWeaker, Filter;
    var max := cfg.maxFrameNum;
    var renumbered := Map(pics, Renumber(n, max));
    WindowLasts(n, d, max);
    RenumberWeaker(pics, n, max);
    WeakerKeeps(renumbered, pics, Farther(n, max), Within(n, d, max));
    SlideWeaker(renumbered, MaxRefs(cfg));
    WeakerKeeps(Slide(renumbered, MaxRefs(cfg)).pics, renumbered, Farther(n, max), Within(n, d, max));
    FilterKeeps(Slide(renumbered, MaxRefs(cfg)).pics, InUse, Farther(n, max), Within(n, d, max));
  }

  lemma GapStepNums(st: State, n: int, d: int, poc: int, cfg: Config)
    requires 0 <= n < cfg.maxFrameNum && Window(st.pics, n, d, cfg.maxFrameNum)
    requires GapStep(st, n, poc, cfg).ok
    ensures ShortNums(GapStep(st, n, poc, cfg).st.pics)
         == Newest(ShortNums(st.pics), MaxRefs(cfg) - 1 - Count(st.pics, IsLong)) + [n]
  {
    hide Slide, Count, Newest, Filter, BumpWhile, Window;
    var frame, cleaned := GapFrame(n, poc), st.(pics := Cleared(st.pics, n, cfg));
    ClearedShorts(st.pics, n, d, cfg);
    BumpWhileKeepsShorts(cleaned, Some(frame), NormalLatency, cfg);
    AppendShort(BumpWhile(cleaned, Some(frame), NormalLatency, cfg).pics, frame);
  }

  lemma AppendShort(pics: seq<Pic>, p: Pic)
    ensures ShortNums(pics + [Stored(p)]) == ShortNums(pics) + if IsShort(p) then [p.frameNum] else []
  {
    FilterAppend(pics, Stored(p), IsShort);
    MapAppend(Filter(pics, IsShort), Stored(p), NumOf);
  }

  lemma GapStepKeepsWindow(st: State, n: int, d: int, poc: int, cfg: Config)
    requires 0 <= n < cfg.maxFrameNum && 0 < d < cfg.maxFrameNum && Window(st.pics, n, d, cfg.maxFrameNum)
    requires GapStep(st, n, poc, cfg).ok
    ensures Window(GapStep(st, n, poc, cfg).st.pics, Next(n, cfg.maxFrameNum), d - 1, cfg.maxFrameNum)
  {
    hide Slide, Keeps, Lasting, Filter, BumpWhile;
    var frame, cleaned := GapFrame(n, poc), st.(pics := Cleared(st.pics, n, cfg));
    ClearedWindow(st.pics, n, d, cfg);
    WindowLasts(n, d, cfg.maxFrameNum);
    BumpWhileKeeps(cleaned, Some(frame), NormalLatency, cfg,
                   Farther(n, cfg.maxFrameNum), Within(n, d, cfg.maxFrameNum));
    assert Stored(frame) == frame;
    WindowMoves(BumpWhile(cleaned, Some(frame), NormalLatency, cfg).pics, n, d, poc, cfg.maxFrameNum);
  }

  /** The frame numbers a gap infers. */
  function GapNums(n: int, target: int, max: int): (r: seq<int>)
    requires 0 <= n < max && 0 <= target < max
    ensures |r| == Ahead(n, target, max)
    decreases Ahead(n, target, max)
  {
    if n == target then [] else [n] + GapNums(Next(n, max), target, max)
  }

  /** They follow one another around the wrap, as many as (target - n) mod MaxFrameNum. */
  lemma {:induction false} GapNumsAt(n: int, target: int, max: int, i: nat)
    requires 0 <= n < max && 0 <= target < max && i < |GapNums(n, target, max)|
    ensures GapNums(n, target, max)[i] == (n + i) % max
    ensures |GapNums(n, target, max)| == (target - n) % max
    decreases i
  {
    AheadIsMod(n, target, max);
    if i == 0 {
      ModUnique(n, max, 0, n);
    } else {
      GapNumsAt(Next(n, max), target, max, i - 1);
      if n + 1 == max {
        DivMod(i - 1, max);
        ModUnique(n + i, max, (i - 1) / max + 1, (i - 1) % max);
      }
    }
  }

  /** Frames inferred one after the other, until one fails. */
  function Infer(st: State, nums: seq<int>, poc: int, cfg: Config): Gapped
    decreases |nums|
  {
    if nums == [] then Gapped(st, true)
    else
      var g := GapStep(st, nums[0], poc, cfg);
      if g.ok then Infer(g.st, nums[1..], poc, cfg) else g
  }

  /** The loop over wrapping numbers infers exactly those frames. */
  lemma {:induction false} GapLoopInfers(st: State, n: int, target: int, poc: int, cfg: Config)
    requires 0 <= n < cfg.maxFrameNum && 0 <= target < cfg.maxFrameNum
    ensures GapLoop(st, n, target, poc, cfg) == Infer(st, GapNums(n, target, cfg.maxFrameNum), poc, cfg)
    decreases Ahead(n, target, cfg.maxFrameNum)
  {
    hide GapStep;
    if n != target {
      var g := GapStep(st, n, poc, cfg);
      if g.ok {
        GapLoopInfers(g.st, Next(n, cfg.maxFrameNum), target, poc, cfg);
      }
    }
  }

  lemma NewestStep(s: seq<int>, n: int, more: seq<int>, room: int)
    requires room > 0
    ensures Newest((Newest(s, room - 1) + [n]) + more, room) == Newest(s + ([n] + more), room)
  {
    var t := [n] + more;
    assert (Newest(s, room - 1) + [n]) + more == Newest(s, room - 1) + t;
    if |s| >= room - 1 {
      var k := |s| - (room - 1);
      assert Newest(s, room - 1) == s[k..];
      assert (s[k..] + t)[|more|..] == (s + t)[k + |more|..];
    }
  }

  lemma {:induction false} GapLoopKeepsNewest(st: State, n: int, target: int, poc: int, cfg: Config)
    requires 0 <= n < cfg.maxFrameNum && 0 <= target < cfg.maxFrameNum && n != target
    requires Fits(st.pics, cfg) && MaxRefs(cfg) <= cfg.limits.maxNumFrames && Count(st.pics, IsLong) < MaxRefs(cfg)
    requires Window(st.pics, n, Ahead(n, target, cfg.maxFrameNum), cfg.maxFrameNum)
    ensures var g := GapLoop(st, n, target, poc, cfg);
            g.ok && ShortNums(g.st.pics) == Newest(ShortNums(st.pics) + GapNums(n, target, cfg.maxFrameNum),
                                                   MaxRefs(cfg) - Count(st.pics, IsLong))
    decreases Ahead(n, target, cfg.maxFrameNum)
  {
    hide GapStep, Window, ShortNums, Count, Newest;
    var room := MaxRefs(cfg) - Count(st.pics, IsLong);
    var d, next := Ahead(n, target, cfg.maxFrameNum), Next(n, cfg.maxFrameNum);
    GapStepFits(st, n, poc, cfg);
    GapStepNums(st, n, d, poc, cfg);
    GapStepKeepsWindow(st, n, d, poc, cfg);
    var g := GapStep(st, n, poc, cfg);
    NewestStep(ShortNums(st.pics), n, GapNums(next, target, cfg.maxFrameNum), room);
    if next != target {
      GapLoopKeepsNewest(g.st, next, target, poc, cfg);
    } else {
      NewestWhole(ShortNums(st.pics), n, room);
      assert GapNums(n, target, cfg.maxFrameNum) == [n];
    }
  }

  lemma NewestWhole(s: seq<int>, n: int, room: int)
    requires room > 0
    ensures Newest(s, room - 1) + [n] == Newest(s + [n], room)
  {
  }

  /** After a gap the short-term references are the newest of the old ones and the inferred ones, as many as fit beside
      the long-term references. */
  lemma GapKeepsNewest(st: State, s: Slice, cfg: Config)
    requires ValidNumbers(st, s, cfg) && IsGap(st, s, cfg)
    requires Fits(st.pics, cfg) && MaxRefs(cfg) <= cfg.limits.maxNumFrames && Count(st.pics, IsLong) < MaxRefs(cfg)
    requires var first := Next(st.prevRefFrameNum, cfg.maxFrameNum);
             Window(st.pics, first, Ahead(first, s.frameNum, cfg.maxFrameNum), cfg.maxFrameNum)
    ensures var g, first := HandleGap(st, s, cfg), Next(st.prevRefFrameNum, cfg.maxFrameNum);
            var gap := GapNums(first, s.frameNum, cfg.maxFrameNum);
            && g.ok
            && ShortNums(g.st.pics) == Newest(ShortNums(st.pics) + gap, MaxRefs(cfg) - Count(st.pics, IsLong))
            && |gap| == (s.frameNum - st.prevRefFrameNum - 1) % cfg.maxFrameNum
            && forall i :: 0 <= i < |gap| ==> gap[i] == (st.prevRefFrameNum + 1 + i) % cfg.maxFrameNum
  {
    hide Window, ShortNums, Count, Newest, GapLoop, Fits;
    var prev, max := st.prevRefFrameNum, cfg.maxFrameNum;
    var first := Next(prev, max);
    GapLoopKeepsNewest(st, first, s.frameNum, s.gapPoc, cfg);
    GapNumbers(prev, s.frameNum, max);
  }

  /** Counting on from the next number is counting on from the number after prev. */
  lemma NextWraps(prev: int, i: nat, max: int)
    requires 0 <= prev < max
    ensures (Next(prev, max) + i) % max == (prev + 1 + i) % max
  {
    if prev + 1 == max {
      DivMod(i, max);
      ModUnique(prev + 1 + i, max, i / max + 1, i % max);
    }
  }

  lemma AheadOfNext(prev: int, target: int, max: int)
    requires 0 <= prev < max && 0 <= target < max
    ensures Ahead(Next(prev, max), target, max) == (target - prev - 1) % max
  {
    AheadIsMod(Next(prev, max), target, max);
    if prev + 1 == max {
      ModUnique(target - prev - 1, max, -1, target);
      ModUnique(target, max, 0, target);
    }
  }

  lemma GapNumbers(prev: int, target: int, max: int)
    requires 0 <= prev < max && 0 <= target < max && Next(prev, max) != target
    ensures var gap := GapNums(Next(prev, max), target, max);
            && |gap| == (target - prev - 1) % max
            && forall i :: 0 <= i < |gap| ==> gap[i] == (prev + 1 + i) % max
  {
    hide GapNums;
    var first := Next(prev, max);
    var gap := GapNums(first, target, max);
    AheadOfNext(prev, target, max);
    forall i | 0 <= i < |gap|
      ensures gap[i] == (prev + 1 + i) % max
    {
      GapNumsAt(first, target, max, i);
      NextWraps(prev, i, max);
    }
  }

  // ---- Gaps closed by a non-reference frame -----------------------------------------------------------------------

  lemma {:induction false} GapLoopLeavesReference(st: State, n: int, target: int, poc: int, cfg: Config)
    requires 0 <= n < cfg.maxFrameNum && 0 <= target < cfg.maxFrameNum && n != target
    requires GapLoop(st, n, target, poc, cfg).ok
    ensures Count(GapLoop(st, n, target, poc, cfg).st.pics, IsRef) > 0
    decreases Ahead(n, target, cfg.maxFrameNum)
  {
    hide BumpWhile, Slide, Filter, Count;
    var next := Next(n, cfg.maxFrameNum);
    var g := GapStep(st, n, poc, cfg);
    if next != target {
      GapLoopLeavesReference(g.st, next, target, poc, cfg);
    } else {
      var cleaned := st.(pics := Cleared(st.pics, n, cfg));
      CountAppend(BumpWhile(cleaned, Some(GapFrame(n, poc)), NormalLatency, cfg).pics, GapFrame(n, poc), IsRef);
    }
  }

  lemma FinishKeepsReferences(st: State, s: Slice, cfg: Config)
    requires !s.isRef ==> Count(st.pics, IsRef) > 0
    ensures Finish(st, s, cfg).pics != []
  {
    hide BumpWhile, Count, Marked, MarkedState;
    var cur, t := CurrentPic(st, s, cfg), Marked(st, s, cfg);
    CurrentKeeps(st, s, cfg);
    if !s.isRef {
      MarkedNonReference(st, s, cfg);
    }
    BumpWhileShape(t, Some(cur), cfg.mode, cfg);
    var b := BumpWhile(t, Some(cur), cfg.mode, cfg);
    CountAppend(b.pics, Stored(cur), IsRef);
    BumpWhileShape(Insert(t, cur, cfg), None, cfg.mode, cfg);
    CountOfEmpty(IsRef);
  }

  lemma MarkedNonReference(st: State, s: Slice, cfg: Config)
    requires !s.isRef
    ensures Count(Marked(st, s, cfg).pics, IsRef) == Count(st.pics, IsRef)
  {
    DeleteUnusedShape(st.pics);
  }

  lemma CountOfEmpty(p: Pic -> bool)
    ensures Count([], p) == 0
  {
  }

  lemma StartAfterGap(st: State, s: Slice, cfg: Config)
    requires ValidNumbers(st, s, cfg) && !s.idr && IsGap(st, s, cfg) && Start(st, s, cfg).ok
    ensures Count(Start(st, s, cfg).st.pics, IsRef) > 0
  {
    hide GapLoop, Count;
    GapLoopLeavesReference(st, Next(st.prevRefFrameNum, cfg.maxFrameNum), s.frameNum, s.gapPoc, cfg);
    RenumberCounts(HandleGap(st, s, cfg).st.pics, s.frameNum, cfg.maxFrameNum);
  }

  /** PrevRefFrameNum does not follow inferred frames: a gap that a non-reference frame ends is found again, and filled
      again, before the next frame with the same frame_num. One that a reference frame ends is not, unless that frame
      carries out operation 5 and so counts from zero again. */
  lemma GapFoundAgain(st: State, s: Slice, next: Slice, cfg: Config)
    requires ValidNumbers(st, s, cfg) && !s.idr && IsGap(st, s, cfg) && Start(st, s, cfg).ok
    requires next.frameNum == s.frameNum
    ensures Sound(Step(st, s, cfg), cfg)
    ensures IsGap(Step(st, s, cfg), next, cfg) <==> !s.isRef || (Resets(s) && s.frameNum > 1)
  {
    hide Start, Finish, Count, Resets;
    StepSound(st, s, cfg);
    StartSound(st, s, cfg);
    var g := Start(st, s, cfg).st;
    FinishSound(g, s, cfg);
    CurrentNumbers(g, s, cfg);
    if !s.isRef {
      StartAfterGap(st, s, cfg);
    }
    FinishKeepsReferences(g, s, cfg);
  }
}
