/** What filling a gap a second time does to the short-term references. The frames inferred the first time still carry
    numbers ahead of the ones inferred now, so they wrap to the far past and leave first; then the oldest frame leaves,
    which one fill would have kept. */
module H264Refill {
  import opened Seqs
  import opened H264DpbSpec
  import opened H264Machine
  import opened H264Marking
  import opened H264Capacity
  import opened H264FrameNum
  import opened H264Window
  import opened Modulo

  // ---- One inferred frame, whatever is stored -------------------------------------------------------------------

  /** The number at m is farthest behind n, and the first such. */
  ghost predicate FirstFarthest(nums: seq<int>, m: nat, n: int, max: int) {
    && m < |nums|
    && (forall k :: 0 <= k < |nums| ==> Ahead(nums[k], n, max) <= Ahead(nums[m], n, max))
    && (forall k :: 0 <= k < m ==> Ahead(nums[k], n, max) < Ahead(nums[m], n, max))
  }

  /** Where element k of a filtered sequence comes from. */
  lemma {:induction false} FilterSource<T>(s: seq<T>, n: nat, p: T -> bool, k: nat) returns (x: nat)
    requires n <= |s| && k < |FilterTo(s, n, p)|
    ensures x < n && p(s[x]) && CountTo(s, x, p) == k && FilterTo(s, n, p)[k] == s[x]
  {
    FilterCount(s, p, n - 1);
    if p(s[n - 1]) && k == |FilterTo(s, n - 1, p)| {
      x := n - 1;
    } else {
      x := FilterSource(s, n - 1, p, k);
    }
  }

  lemma {:induction false} FilterAtSource<T>(s: seq<T>, n: nat, p: T -> bool, x: nat)
    requires x < n <= |s| && p(s[x])
    ensures CountTo(s, x, p) < |FilterTo(s, n, p)| && FilterTo(s, n, p)[CountTo(s, x, p)] == s[x]
  {
    FilterCount(s, p, n - 1);
    if x < n - 1 {
      FilterAtSource(s, n - 1, p, x);
    }
  }

  lemma {:induction false} CountToGrows<T>(s: seq<T>, a: nat, b: nat, p: T -> bool)
    requires a <= b <= |s|
    ensures CountTo(s, a, p) <= CountTo(s, b, p)
    decreases b - a
  {
    if a < b {
      CountToGrows(s, a, b - 1, p);
    }
  }

  lemma FilterRemoves<T>(s: seq<T>, i: nat, x: T, p: T -> bool)
    requires i < |s| && p(s[i]) && !p(x)
    ensures CountTo(s, i, p) < |Filter(s, p)| && Filter(s[i := x], p) == RemoveAt(Filter(s, p), CountTo(s, i, p))
  {
    hide Filter, Count, FilterTo;
    var r := s[i := x];
    FilterAt(s, i, p);
    FilterAt(r, i, p);
    assert r[..i] == s[..i] && r[i + 1..] == s[i + 1..];
    PrefixCount(s, i, p);
    Unlink(Filter(s[..i], p), s[i], Filter(s[i + 1..], p));
  }

  lemma PrefixCount<T>(s: seq<T>, i: nat, p: T -> bool)
    requires i <= |s|
    ensures |Filter(s[..i], p)| == CountTo(s, i, p)
  {
    FilterCount(s[..i], p, i);
    CountSame(s[..i], p, s, p, i);
  }

  lemma Unlink<T>(front: seq<T>, x: T, back: seq<T>)
    ensures RemoveAt(front + [x] + back, |front|) == front + [] + back
  {
  }

  /** Unmarking a short-term reference removes its number from the list of numbers. */
  lemma UnmarkRemoves(pics: seq<Pic>, i: nat)
    requires i < |pics| && IsShort(pics[i])
    ensures CountTo(pics, i, IsShort) < |ShortNums(pics)|
    ensures ShortNums(pics[i := Unmark(pics[i])]) == RemoveAt(ShortNums(pics), CountTo(pics, i, IsShort))
  {
    hide Filter;
    FilterRemoves(pics, i, Unmark(pics[i]), IsShort);
    MapRemoves(Filter(pics, IsShort), CountTo(pics, i, IsShort), NumOf);
  }

  /** The frame the window takes is the first farthest. */
  lemma LowestIsFarthest(pics: seq<Pic>, n: int, max: int, m: nat)
    requires 0 <= n < max && FirstFarthest(ShortNums(pics), m, n, max)
    ensures var r := Map(pics, Renumber(n, max));
            var i := LowestShortTo(r, |r|);
            i >= 0 && CountTo(r, i, IsShort) == m
  {
    var r := Map(pics, Renumber(n, max));
    var nums, i := ShortNums(pics), LowestShortTo(r, |r|);
    SameShorts(r, pics, |pics|);
    var x := FilterSource(r, |r|, IsShort, m);
    assert nums[m] == r[x].frameNum == pics[x].frameNum;
    FilterAtSource(r, |r|, IsShort, i);
    var j := CountTo(r, i, IsShort);
    assert nums[j] == r[i].frameNum == pics[i].frameNum;
    assert r[i].frameNumWrap == n - Ahead(nums[j], n, max) && r[x].frameNumWrap == n - Ahead(nums[m], n, max);
    if m < j {
      CountToGrows(r, i, if x < i then i else x, IsShort);
    }
  }

  lemma RefsOfShorts(pics: seq<Pic>)
    ensures Count(pics, IsRef) == |ShortNums(pics)| + Count(pics, IsLong)
  {
    RefsAreShortAndLong(pics, |pics|);
    FilterCount(pics, IsShort, |pics|);
  }

  /** One inferred frame: if the references fill the window the farthest goes, and the new one joins. */
  lemma GapStepShorts(st: State, n: int, poc: int, cfg: Config, m: nat)
    requires 0 <= n < cfg.maxFrameNum && Count(st.pics, IsLong) < MaxRefs(cfg) && Count(st.pics, IsRef) <= MaxRefs(cfg)
    requires Count(st.pics, IsRef) == MaxRefs(cfg) ==> FirstFarthest(ShortNums(st.pics), m, n, cfg.maxFrameNum)
    ensures var g, nums := GapStep(st, n, poc, cfg), ShortNums(st.pics);
            && g.ok && Count(g.st.pics, IsLong) == Count(st.pics, IsLong)
            && ShortNums(g.st.pics) == (if Count(st.pics, IsRef) == MaxRefs(cfg) then RemoveAt(nums, m) else nums) + [n]
  {
    hide Count, BumpWhile, Filter, ShortNums, Slide;
    var r, frame := Map(st.pics, Renumber(n, cfg.maxFrameNum)), GapFrame(n, poc);
    SlideShorts(st.pics, n, cfg, m);
    SlideLeaves(r, MaxRefs(cfg));
    RenumberCounts(st.pics, n, cfg.maxFrameNum);
    var slid := Slide(r, MaxRefs(cfg));
    var cleaned := st.(pics := DeleteUnused(slid.pics));
    CleanKeepsShorts(slid.pics);
    DeleteUnusedShape(slid.pics);
    BumpWhileKeepsShorts(cleaned, Some(frame), NormalLatency, cfg);
    BumpWhileShape(cleaned, Some(frame), NormalLatency, cfg);
    var b := BumpWhile(cleaned, Some(frame), NormalLatency, cfg).pics;
    AppendShort(b, frame);
    CountAppend(b, Stored(frame), IsLong);
  }

  lemma SlideShorts(pics: seq<Pic>, n: int, cfg: Config, m: nat)
    requires 0 <= n < cfg.maxFrameNum && Count(pics, IsRef) <= MaxRefs(cfg)
    requires Count(pics, IsRef) == MaxRefs(cfg) ==> FirstFarthest(ShortNums(pics), m, n, cfg.maxFrameNum)
    ensures Count(pics, IsRef) == MaxRefs(cfg) ==> m < |ShortNums(pics)|
    ensures ShortNums(Slide(Map(pics, Renumber(n, cfg.maxFrameNum)), MaxRefs(cfg)).pics)
         == if Count(pics, IsRef) == MaxRefs(cfg) then RemoveAt(ShortNums(pics), m) else ShortNums(pics)
  {
    hide FirstFarthest, Filter;
    var r := Map(pics, Renumber(n, cfg.maxFrameNum));
    SameShorts(r, pics, |pics|);
    SameNums(r, pics);
    RenumberCounts(pics, n, cfg.maxFrameNum);
    SlideUnfolds(r, MaxRefs(cfg));
    if Count(pics, IsRef) == MaxRefs(cfg) {
      LowestIsFarthest(pics, n, cfg.maxFrameNum, m);
      var i := LowestShortTo(r, |r|);
      UnmarkRemoves(r, i);
      UnmarkCount(r, i);
      SlideUnfolds(r[i := Unmark(r[i])], MaxRefs(cfg));
    }
  }

  lemma SameNums(a: seq<Pic>, b: seq<Pic>)
    requires |a| == |b| && forall i :: 0 <= i < |a| ==> IsShort(a[i]) == IsShort(b[i]) && a[i].frameNum == b[i].frameNum
    ensures ShortNums(a) == ShortNums(b)
  {
    SameShorts(a, b, |a|);
  }

  // ---- Frames by their unwrapped numbers --------------------------------------------------------------------------

  /** The numbers from lo to hi. */
  function Between(lo: int, hi: int): (r: seq<int>)
    ensures |r| == if lo <= hi then hi - lo + 1 else 0
    ensures forall i {:trigger r[i]} :: 0 <= i < |r| ==> r[i] == lo + i
  {
    if lo <= hi then seq(hi - lo + 1, i => lo + i) else []
  }

  function ModOf(max: nat): int -> int
    requires max > 0
  {
    (u: int) => u % max
  }

  /** How far u seems to lie behind n. */
  function Distance(u: int, n: int, max: int): int { if u <= n then n - u else n - u + max }

  lemma DistanceIsAhead(u: nat, n: nat, max: nat)
    requires max > 0 && n - u < max && u - n < max
    ensures Ahead(u % max, n % max, max) == Distance(u, n, max)
  {
    if u <= n {
      AheadOfMods(u, n, max);
    } else {
      AheadOfMods(n, u, max);
    }
  }

  /** The list us is stored, by its wrapped numbers, beside the long-term references. */
  ghost predicate Holds(st: State, us: seq<int>, longs: nat, cfg: Config)
    requires cfg.maxFrameNum > 0
  {
    && ShortNums(st.pics) == Map(us, ModOf(cfg.maxFrameNum))
    && Count(st.pics, IsLong) == longs < MaxRefs(cfg)
    && |us| + longs <= MaxRefs(cfg)
  }

  /** The element at m is the first farthest behind n. */
  ghost predicate Oldest(us: seq<int>, m: nat, n: nat, max: nat) {
    && m < |us|
    && (forall k :: 0 <= k < |us| ==> 0 <= us[k] && n - us[k] < max && us[k] - n < max)
    && (forall k :: 0 <= k < |us| ==> Distance(us[k], n, max) <= Distance(us[m], n, max))
    && (forall k :: 0 <= k < m ==> Distance(us[k], n, max) < Distance(us[m], n, max))
  }

  lemma OldestIsFarthest(us: seq<int>, m: nat, n: nat, max: nat)
    requires max > 0 && Oldest(us, m, n, max)
    ensures FirstFarthest(Map(us, ModOf(max)), m, n % max, max)
  {
    var nums := Map(us, ModOf(max));
    forall k | 0 <= k < |us|
      ensures Ahead(nums[k], n % max, max) == Distance(us[k], n, max)
    {
      DistanceIsAhead(us[k], n, max);
    }
  }

  /** One more inferred frame, by unwrapped numbers: next is the list it leaves. */
  lemma InferOnto(st: State, us: seq<int>, next: seq<int>, longs: nat, n: nat, poc: int, cfg: Config, m: nat)
    requires cfg.maxFrameNum > 0 && Holds(st, us, longs, cfg)
    requires if |us| + longs < MaxRefs(cfg) then next == us + [n]
             else Oldest(us, m, n, cfg.maxFrameNum) && next == RemoveAt(us, m) + [n]
    ensures var g := GapStep(st, n % cfg.maxFrameNum, poc, cfg);
            g.ok && Holds(g.st, next, longs, cfg)
  {
    hide GapStep, ShortNums, Count, Oldest, FirstFarthest;
    RefsOfShorts(st.pics);
    if |us| + longs == MaxRefs(cfg) {
      OldestIsFarthest(us, m, n, cfg.maxFrameNum);
      MapRemoves(us, m, ModOf(cfg.maxFrameNum));
      MapAppend(RemoveAt(us, m), n, ModOf(cfg.maxFrameNum));
    } else {
      MapAppend(us, n, ModOf(cfg.maxFrameNum));
    }
    GapStepShorts(st, n % cfg.maxFrameNum, poc, cfg, m);
  }

  lemma MapRemoves<T, U>(s: seq<T>, m: nat, f: T -> U)
    requires m < |s|
    ensures Map(RemoveAt(s, m), f) == RemoveAt(Map(s, f), m)
  {
  }

  // ---- The second fill ----------------------------------------------------------------------------------------------

  /** Short-term references by unwrapped number after i frames of the second fill: g frames are missing after frame t,
      the first fill has left the k newest, and there is room for room of them. */
  function Stage(t: nat, g: nat, k: nat, room: nat, i: nat): seq<int> {
    var a, d := t + g - k + 1, room - k + 1;
    if g > room then
      if i <= room then Between(a + i, t + g) + Between(t + 1, t + i) else Between(t + i - room + 1, t + i)
    else if i < d then Between(a, t + g) + Between(t + 1, t + i)
    else if i < g then Between(a, t + d) + Between(t + i + 2, t + g) + Between(t + 1, t + i)
    else Between(a + 1, t + d) + Between(t + 1, t + i)
  }

  ghost predicate Filling(t: nat, g: nat, k: nat, room: nat, max: nat) {
    && 0 < g < max && 0 < room < max && k <= room && k <= t + g + 1
    && if g > room then k == room else g <= k
  }

  /** The frame that leaves for frame i + 1 of the fill, when one must. */
  function Leaving(t: nat, g: nat, k: nat, room: nat, i: nat): int {
    if g > room || i + 1 >= g then 0 else room - g + 1
  }

  lemma StageLength(t: nat, g: nat, k: nat, room: nat, max: nat, i: nat)
    requires Filling(t, g, k, room, max) && i < g
    ensures |Stage(t, g, k, room, i)| == if g > room || i > room - k then room else k + i
  {
  }

  lemma BetweenExtends(from: int, n: int)
    requires from <= n
    ensures Between(from, n - 1) + [n] == Between(from, n)
  {
  }

  /** A run of numbers loses its first one, and n is appended at the far end. */
  lemma RunLosesFirst(a: seq<int>, lo: int, hi: int, from: int, n: int)
    requires lo <= hi && from <= n
    ensures RemoveAt(a + Between(lo, hi) + Between(from, n - 1), |a|) + [n]
         == a + Between(lo + 1, hi) + Between(from, n)
  {
    var b, c := Between(lo, hi), Between(from, n - 1);
    BetweenExtends(from, n);
    assert b[1..] == Between(lo + 1, hi);
    RemoveInside(a, b, c);
    assert a + b[1..] + c + [n] == a + b[1..] + (c + [n]);
  }

  lemma RemoveInside(a: seq<int>, b: seq<int>, c: seq<int>)
    requires b != []
    ensures RemoveAt(a + b + c, |a|) == a + b[1..] + c
  {
  }

  lemma PairLosesFirst(lo: int, hi: int, from: int, n: int)
    requires lo <= hi && from <= n
    ensures RemoveAt(Between(lo, hi) + Between(from, n - 1), 0) + [n] == Between(lo + 1, hi) + Between(from, n)
  {
    hide Between, RemoveAt;
    RunLosesFirst([], lo, hi, from, n);
    NothingBefore(Between(lo, hi));
    NothingBefore(Between(lo + 1, hi));
  }

  lemma NothingBefore(s: seq<int>)
    ensures [] + s == s
  {
  }

  lemma PairElements(lo: int, hi: int, from: int, to: int)
    requires lo <= hi + 1 && from <= to + 1
    ensures var us := Between(lo, hi) + Between(from, to);
            && |us| == (hi - lo + 1) + (to - from + 1)
            && forall k :: 0 <= k < |us| ==> us[k] == if k <= hi - lo then lo + k else from + k - (hi - lo + 1)
  {
  }

  /** A stretch ahead of n, then one behind: the first frame seems farthest, and goes when n joins. */
  lemma FirstIsAhead(lo: nat, hi: nat, from: nat, n: nat, max: nat)
    requires n < lo <= hi && 0 < n && hi - n < max && from <= n && n - from < max - (lo - n)
    ensures Oldest(Between(lo, hi) + Between(from, n - 1), 0, n, max)
    ensures RemoveAt(Between(lo, hi) + Between(from, n - 1), 0) + [n] == Between(lo + 1, hi) + Between(from, n)
  {
    hide Between, RemoveAt;
    PairLosesFirst(lo, hi, from, n);
    PairElements(lo, hi, from, n - 1);
  }

  /** Two stretches behind n, the first as old as the second or older. */
  lemma FirstIsOldest(lo: nat, hi: nat, from: nat, n: nat, max: nat)
    requires lo <= hi <= n && lo <= from <= n && 0 < n && n - lo < max
    ensures Oldest(Between(lo, hi) + Between(from, n - 1), 0, n, max)
    ensures RemoveAt(Between(lo, hi) + Between(from, n - 1), 0) + [n] == Between(lo + 1, hi) + Between(from, n)
  {
    hide Between, RemoveAt;
    PairLosesFirst(lo, hi, from, n);
    PairElements(lo, hi, from, n - 1);
  }

  /** A stretch ahead of n in the middle: its first frame, just ahead, seems farthest of all. */
  lemma MiddleIsAhead(lo: nat, hi: nat, last: nat, from: nat, n: nat, max: nat)
    requires lo <= hi <= n < last && from <= n && 0 < n && n - lo < max - 1 && last - n < max && n - from < max - 1
    ensures var us := Between(lo, hi) + Between(n + 1, last) + Between(from, n - 1);
            && Oldest(us, hi - lo + 1, n, max)
            && RemoveAt(us, hi - lo + 1) + [n] == Between(lo, hi) + Between(n + 2, last) + Between(from, n)
  {
    RunLosesFirst(Between(lo, hi), n + 1, last, from, n);
    var us, p := Between(lo, hi) + Between(n + 1, last) + Between(from, n - 1), hi - lo + 1;
    forall k | 0 <= k < |us|
      ensures us[k] == if k < p then lo + k else if k < p + last - n then n + 1 + k - p else from + k - p - (last - n)
    {
    }
  }

  lemma Stretches(lo: int, mid: int, hi: int)
    requires lo <= mid + 1 <= hi + 1
    ensures Between(lo, hi) == Between(lo, mid) + Between(mid + 1, hi)
  {
  }

  lemma Nothing(lo: int, rest: seq<int>)
    ensures Between(lo, lo - 1) + rest == rest && rest + Between(lo, lo - 1) == rest
  {
  }

  /** More frames are missing than fit: only frames of the first fill are left, and they leave in order. */
  lemma LongFill(t: nat, g: nat, k: nat, room: nat, max: nat, i: nat)
    requires Filling(t, g, k, room, max) && i < g && g > room
    ensures var us, n := Stage(t, g, k, room, i), t + 1 + i;
            Oldest(us, 0, n, max) && Stage(t, g, k, room, i + 1) == RemoveAt(us, 0) + [n]
  {
    hide Oldest, Between, RemoveAt;
    var n, a := t + 1 + i, t + g - k + 1;
    if i < room {
      FirstIsAhead(a + i, t + g, t + 1, n, max);
    } else {
      LateFill(t, g, k, room, max, i);
      FirstIsOldest(n - room, n - room, n - room + 1, n, max);
    }
  }

  lemma LateFill(t: nat, g: nat, k: nat, room: nat, max: nat, i: nat)
    requires Filling(t, g, k, room, max) && room <= i < g
    ensures var n := t + 1 + i;
            && Stage(t, g, k, room, i) == Between(n - room, n - room) + Between(n - room + 1, n - 1)
            && Stage(t, g, k, room, i + 1) == Between(n - room + 1, n - room) + Between(n - room + 1, n)
  {
    var n := t + 1 + i;
    Stretches(n - room, n - room, n - 1);
    Nothing(n - room + 1, Between(n - room + 1, n));
    Nothing(t + g + 1, Between(t + 1, t + i));
  }

  /** Normal form of a full list that still holds frames ahead. */
  lemma FullStage(t: nat, g: nat, k: nat, room: nat, max: nat, i: nat)
    requires Filling(t, g, k, room, max) && i < g <= room && i >= room - k
    ensures Stage(t, g, k, room, i)
         == Between(t + g - k + 1, t + room - k + 1) + Between(t + i + 2, t + g) + Between(t + 1, t + i)
  {
    if i < room - k + 1 {
      Stretches(t + g - k + 1, t + room - k + 1, t + g);
    }
  }

  /** The frame just ahead seems farthest behind. */
  lemma AheadLeaves(t: nat, g: nat, k: nat, room: nat, max: nat, i: nat)
    requires Filling(t, g, k, room, max) && i + 1 < g <= room && i >= room - k
    ensures var us, n, m := Stage(t, g, k, room, i), t + 1 + i, room - g + 1;
            Oldest(us, m, n, max) && Stage(t, g, k, room, i + 1) == RemoveAt(us, m) + [n]
  {
    hide Oldest, RemoveAt, Stage, Between;
    FullStage(t, g, k, room, max, i);
    FullStage(t, g, k, room, max, i + 1);
    MiddleIsAhead(t + g - k + 1, t + room - k + 1, t + g, t + 1, t + 1 + i, max);
  }

  /** At the end none is ahead, and the oldest frame leaves. */
  lemma OldestLeaves(t: nat, g: nat, k: nat, room: nat, max: nat)
    requires Filling(t, g, k, room, max) && g <= room && g - 1 >= room - k
    ensures var us, n := Stage(t, g, k, room, g - 1), t + g;
            Oldest(us, 0, n, max) && Stage(t, g, k, room, g) == RemoveAt(us, 0) + [n]
  {
    hide Oldest, RemoveAt, Stage, Between;
    LastStage(t, g, k, room, max);
    FirstIsOldest(t + g - k + 1, t + room - k + 1, t + 1, t + g, max);
  }

  lemma LastStage(t: nat, g: nat, k: nat, room: nat, max: nat)
    requires Filling(t, g, k, room, max) && g <= room && g - 1 >= room - k
    ensures Stage(t, g, k, room, g - 1) == Between(t + g - k + 1, t + room - k + 1) + Between(t + 1, t + g - 1)
    ensures Stage(t, g, k, room, g) == Between(t + g - k + 2, t + room - k + 1) + Between(t + 1, t + g)
  {
    hide Between;
    FullStage(t, g, k, room, max, g - 1);
    Nothing(t + g + 1, Between(t + g - k + 1, t + room - k + 1));
  }

  lemma StageStep(t: nat, g: nat, k: nat, room: nat, max: nat, i: nat)
    requires Filling(t, g, k, room, max) && i < g
    ensures var us, next := Stage(t, g, k, room, i), Stage(t, g, k, room, i + 1);
            var n, m := t + 1 + i, Leaving(t, g, k, room, i);
            && |us| <= room && m >= 0
            && if |us| < room then next == us + [n] else Oldest(us, m, n, max) && next == RemoveAt(us, m) + [n]
  {
    hide Oldest;
    StageLength(t, g, k, room, max, i);
    var us, n := Stage(t, g, k, room, i), t + 1 + i;
    if g > room {
      LongFill(t, g, k, room, max, i);
    } else if i < room - k {
      assert Stage(t, g, k, room, i + 1) == us + [n];
    } else if i + 1 < g {
      AheadLeaves(t, g, k, room, max, i);
    } else {
      OldestLeaves(t, g, k, room, max);
    }
  }

  lemma {:induction false} RefillLoop(st: State, t: nat, g: nat, k: nat, longs: nat, i: nat, poc: int, cfg: Config)
    requires cfg.maxFrameNum > 0 && longs < MaxRefs(cfg) && i <= g
    requires Filling(t, g, k, MaxRefs(cfg) - longs, cfg.maxFrameNum)
    requires Holds(st, Stage(t, g, k, MaxRefs(cfg) - longs, i), longs, cfg)
    ensures var r := GapLoop(st, (t + 1 + i) % cfg.maxFrameNum, (t + 1 + g) % cfg.maxFrameNum, poc, cfg);
            r.ok && Holds(r.st, Stage(t, g, k, MaxRefs(cfg) - longs, g), longs, cfg)
    decreases g - i
  {
    hide GapStep, Holds, Stage, Oldest, Leaving;
    var max, room, n := cfg.maxFrameNum, MaxRefs(cfg) - longs, t + 1 + i;
    GapLoopUnfolds(st, n % max, (t + 1 + g) % max, poc, cfg);
    if i < g {
      AheadOfMods(n, t + 1 + g, max);
      NextOfMod(n, max);
      StageStep(t, g, k, room, max, i);
      var us, next := Stage(t, g, k, room, i), Stage(t, g, k, room, i + 1);
      InferOnto(st, us, next, longs, n, poc, cfg, Leaving(t, g, k, room, i));
      RefillLoop(GapStep(st, n % max, poc, cfg).st, t, g, k, longs, i + 1, poc, cfg);
    }
  }

  /** What the second fill leaves. If all missing frames fit twice over, they are there twice. If they do not, but fit
      once, the oldest frame has gone and the first of the missing frames fill its place again. If they do not even
      fit once, nothing older was left to lose. */
  function Refilled(t: nat, g: nat, k: nat, room: nat): seq<int> {
    if g > room then Between(t + g - room + 1, t + g)
    else if k + g <= room then Between(t + g - k + 1, t + g) + Between(t + 1, t + g)
    else Between(t + g - k + 2, t + room - k + 1) + Between(t + 1, t + g)
  }

  lemma StageEnds(t: nat, g: nat, k: nat, room: nat, max: nat)
    requires Filling(t, g, k, room, max)
    ensures Stage(t, g, k, room, g) == Refilled(t, g, k, room)
  {
  }

  lemma RecentIsBetween(t: nat, k: nat, max: nat)
    requires max > 0 && k <= t + 1
    ensures Recent(t, k, max) == Map(Between(t - k + 1, t), ModOf(max))
  {
  }

  /** The second fill leaves the newest references, as one fill does, only if the missing ones are all that fit. */
  lemma RefilledIsNewestIff(t: nat, g: nat, k: nat, room: nat, max: nat)
    requires Filling(t, g, k, room, max)
    ensures Map(Refilled(t, g, k, room), ModOf(max)) == Recent(t + g, k, max) <==> g >= room
  {
    var us, a := Refilled(t, g, k, room), t + g - k + 1;
    RecentIsBetween(t + g, k, max);
    if g >= room {
      assert us == Between(a, t + g);
    } else if |us| == k {
      assert us[0] == a + 1 && Map(us, ModOf(max))[0] == (a + 1) % max && Recent(t + g, k, max)[0] == a % max;
      DistantNumbers(a, 1, max);
    }
  }

  /** A gap of g frames, ended by a non-reference frame, when the decoder is in step with frame t: the first fill leaves
      the k newest short-term references, the second, before the next frame, leaves what `Refilled` says. */
  lemma SecondFill(st: State, s: Slice, next: Slice, t: nat, longs: nat, cfg: Config)
    requires ValidNumbers(st, s, cfg) && Roomy(cfg) && AtFrame(st.pics, t, longs, cfg) && longs < MaxRefs(cfg)
    requires !s.idr && !s.isRef && !next.idr && next.frameNum == s.frameNum && cfg.gapsAllowed
    requires st.prevRefFrameNum == t % cfg.maxFrameNum
    requires s.frameNum != t % cfg.maxFrameNum && s.frameNum != (t + 1) % cfg.maxFrameNum
    ensures Sound(Step(st, s, cfg), cfg)
    ensures var g, room := Missing(t, s, cfg.maxFrameNum), MaxRefs(cfg) - longs;
            var k := Min(t + g + 1, MaxRefs(cfg)) - longs;
            var once, twice := Step(st, s, cfg), Start(Step(st, s, cfg), next, cfg);
            && ShortNums(once.pics) == Recent(t + g, k, cfg.maxFrameNum)
            && twice.ok && ShortNums(twice.st.pics) == Map(Refilled(t, g, k, room), ModOf(cfg.maxFrameNum))
            && (ShortNums(twice.st.pics) == ShortNums(once.pics) <==> g >= room)
  {
    hide Start, Step, ShortNums, Count, Recent, Refilled, GapLoop;
    var max, g, room := cfg.maxFrameNum, Missing(t, s, cfg.maxFrameNum), MaxRefs(cfg) - longs;
    var k := Min(t + g + 1, MaxRefs(cfg)) - longs;
    var once := Step(st, s, cfg);
    StepSound(st, s, cfg);
    StepAt(st, s, t, longs, cfg);
    PrevRef(st, s, cfg);
    MissingIsAhead(t, s, max);
    GapInStep(st, s, t, longs, cfg);
    RefilledIsNewestIff(t, g, k, room, max);
    SecondStart(once, s, next, t, g, k, longs, cfg);
  }

  lemma GapInStep(st: State, s: Slice, t: nat, longs: nat, cfg: Config)
    requires ValidNumbers(st, s, cfg) && Roomy(cfg) && AtFrame(st.pics, t, longs, cfg) && longs < MaxRefs(cfg)
    requires s.frameNum != t % cfg.maxFrameNum && s.frameNum != (t + 1) % cfg.maxFrameNum
    ensures var g, room := Missing(t, s, cfg.maxFrameNum), MaxRefs(cfg) - longs;
            Filling(t, g, Min(t + g + 1, MaxRefs(cfg)) - longs, room, cfg.maxFrameNum)
  {
    MissingIsAhead(t, s, cfg.maxFrameNum);
  }

  lemma SecondStart(once: State, s: Slice, next: Slice, t: nat, g: nat, k: nat, longs: nat, cfg: Config)
    requires ValidNumbers(once, next, cfg) && once.prevRefFrameNum == t % cfg.maxFrameNum && longs < MaxRefs(cfg)
    requires AtFrame(once.pics, t + g, longs, cfg) && k == Min(t + g + 1, MaxRefs(cfg)) - longs
    requires Filling(t, g, k, MaxRefs(cfg) - longs, cfg.maxFrameNum) && cfg.gapsAllowed && !next.idr
    requires next.frameNum == (t + g + 1) % cfg.maxFrameNum
    requires next.frameNum != t % cfg.maxFrameNum && next.frameNum != (t + 1) % cfg.maxFrameNum
    ensures var twice := Start(once, next, cfg);
            && twice.ok
            && ShortNums(twice.st.pics) == Map(Refilled(t, g, k, MaxRefs(cfg) - longs), ModOf(cfg.maxFrameNum))
  {
    hide GapLoop, ShortNums, Count, Stage, Refilled, Recent, Fits;
    var max, room := cfg.maxFrameNum, MaxRefs(cfg) - longs;
    NextOfMod(t, max);
    AtFrameStores(once.pics, t + g, longs, cfg);
    StageBegins(t, g, k, room, max);
    RecentIsBetween(t + g, k, max);
    RefillLoop(once, t, g, k, longs, 0, next.gapPoc, cfg);
    StageEnds(t, g, k, room, max);
    var filled := HandleGap(once, next, cfg).st.pics;
    SameNums(Map(filled, Renumber(next.frameNum, max)), filled);
  }

  lemma StageBegins(t: nat, g: nat, k: nat, room: nat, max: nat)
    requires Filling(t, g, k, room, max)
    ensures Stage(t, g, k, room, 0) == Between(t + g - k + 1, t + g)
  {
  }

  // ---- Streams that meet these cases --------------------------------------------------------------------------------

  const FIVE_FRAMES := Config(Limits(5, 0), 5, 16, true, NormalLatency, false, 0)
  const FRAME_0 := Slice(0, 0, 0, true, true, false, false, false, [], 0)
  const FRAME_5 := Slice(1, 2, 5, false, false, false, false, false, [], 0)
  const FRAME_5_AGAIN := Slice(2, 4, 5, true, false, false, false, false, [], 0)

  lemma FirstFrameAlone()
    ensures var st := Run([FRAME_0], FIVE_FRAMES);
            AtFrame(st.pics, 0, 0, FIVE_FRAMES) && st.prevRefFrameNum == 0
  {
    hide Step, AtFrame, Run;
    assert [FRAME_0][..0] == [];
    assert !EverAstray([FRAME_0], FIVE_FRAMES) by { assert !EverAstray([], FIVE_FRAMES); }
    RunKeepsNewest([FRAME_0], FIVE_FRAMES);
  }

  /** IDR frame 0, a non-reference frame 5, another frame 5, in a window of five: the second fill puts frame 1 into the
      list twice and loses frame 0, the only one that was decoded. */
  lemma SecondFillLosesFrame()
    ensures SlidingOnly([FRAME_0, FRAME_5, FRAME_5_AGAIN]) && Regular([FRAME_0, FRAME_5, FRAME_5_AGAIN], FIVE_FRAMES)
    ensures var st := Run([FRAME_0, FRAME_5], FIVE_FRAMES);
            && ShortNums(st.pics) == [0, 1, 2, 3, 4]
            && ShortNums(Start(st, FRAME_5_AGAIN, FIVE_FRAMES).st.pics) == [1, 1, 2, 3, 4]
  {
    hide Step, Start, ShortNums, AtFrame, Run;
    PlainStream();
    FirstFrameAlone();
    assert [FRAME_0] + [FRAME_5] == [FRAME_0, FRAME_5];
    RunSplits([FRAME_0], FRAME_5, FIVE_FRAMES);
    SecondFill(Run([FRAME_0], FIVE_FRAMES), FRAME_5, FRAME_5_AGAIN, 0, 0, FIVE_FRAMES);
    FillsListed();
  }

  lemma PlainStream()
    ensures SlidingOnly([FRAME_0, FRAME_5, FRAME_5_AGAIN]) && Regular([FRAME_0, FRAME_5, FRAME_5_AGAIN], FIVE_FRAMES)
  {
    assert [FRAME_0][..0] == [] && [FRAME_0, FRAME_5][..1] == [FRAME_0];
    assert RefsSinceIdr([FRAME_0], 16) == 0 && RefsSinceIdr([FRAME_0, FRAME_5], 16) == 4;
    assert Regular([FRAME_0], FIVE_FRAMES);
    assert Regular([FRAME_0, FRAME_5], FIVE_FRAMES);
    assert [FRAME_0, FRAME_5, FRAME_5_AGAIN][..2] == [FRAME_0, FRAME_5];
  }

  lemma FillsListed()
    ensures Recent(4, 5, 16) == [0, 1, 2, 3, 4]
    ensures Map(Between(1, 1) + Between(1, 4), ModOf(16)) == [1, 1, 2, 3, 4]
  {
  }

  lemma RunSplits(ss: seq<Slice>, s: Slice, cfg: Config)
    requires Numbered(ss, cfg) && Numbered(ss + [s], cfg)
    ensures Run(ss + [s], cfg) == Step(Run(ss, cfg), s, cfg)
  {
    assert (ss + [s])[..|ss|] == ss;
  }

  /** A window of one frame that a long-term frame fills: the window fails, and the reference frame is stored beside it
      as its only short-term one. Behind a gap it is dropped. */
  lemma SingleReference(st: State, s: Slice, cfg: Config)
    requires ValidNumbers(st, s, cfg) && Fits(st.pics, cfg) && Count(st.pics, IsLong) == 1
    requires MaxRefs(cfg) == 1 <= cfg.limits.maxNumFrames && Slides(s) && Plain(s)
    ensures Start(st, s, cfg).ok <==> !IsGap(st, s, cfg)
    ensures !IsGap(st, s, cfg) ==>
              ShortNums(Step(st, s, cfg).pics) == [s.frameNum] && Count(Step(st, s, cfg).pics, IsRef) == 2
  {
    hide Start, Finish, Marked, Count, IsGap, Resets, ShortNums;
    StartFits(st, s, cfg);
    var g := Start(st, s, cfg);
    if g.ok {
      SingleReferenceMarked(g.st, s, cfg);
      FinishShorts(g.st, s, cfg);
      FinishLongs(g.st, s, cfg);
      CurrentNumbers(g.st, s, cfg);
      CurrentIsShort(g.st, s, cfg);
      RefsOfShorts(Step(st, s, cfg).pics);
    }
  }

  lemma CurrentIsShort(st: State, s: Slice, cfg: Config)
    requires Slides(s) && Plain(s)
    ensures IsShort(CurrentPic(st, s, cfg)) && !Resets(s)
  {
  }

  lemma SingleReferenceMarked(st: State, s: Slice, cfg: Config)
    requires Count(st.pics, IsLong) == 1 && MaxRefs(cfg) == 1 && Slides(s) && Plain(s)
    ensures ShortNums(Marked(st, s, cfg).pics) == []
  {
    hide Count, Slide, Filter;
    LongsAreReferences(st.pics);
    SlideLeaves(st.pics, 1);
    RefsOfShorts(Slide(st.pics, 1).pics);
    CleanKeepsShorts(Slide(st.pics, 1).pics);
  }

  /** A long-term IDR frame and a reference frame, with num_ref_frames 1: two references are stored. */
  lemma SingleReferenceExceeded()
    ensures var cfg := Config(Limits(2, 0), 1, 16, false, NormalLatency, false, 0);
            var idr := Slice(0, 0, 0, true, true, true, false, false, [], 0);
            var next := Slice(1, 2, 1, true, false, false, false, false, [], 0);
            && SlidingOnly([idr, next]) && Regular([idr, next], cfg)
            && ShortNums(Run([idr, next], cfg).pics) == [1] && Count(Run([idr, next], cfg).pics, IsRef) == 2
  {
    hide Step, ShortNums, Run, Count, IsGap;
    var cfg := Config(Limits(2, 0), 1, 16, false, NormalLatency, false, 0);
    var idr := Slice(0, 0, 0, true, true, true, false, false, [], 0);
    var next := Slice(1, 2, 1, true, false, false, false, false, [], 0);
    assert [idr][..0] == [] && [idr, next][..1] == [idr];
    RunKeepsNewest([idr], cfg);
    assert !EverAstray([idr], cfg) by { assert !EverAstray([], cfg); }
    assert [idr] + [next] == [idr, next];
    RunSplits([idr], next, cfg);
    NotAGap(Run([idr], cfg), next, cfg);
    SingleReference(Run([idr], cfg), next, cfg);
  }
}
