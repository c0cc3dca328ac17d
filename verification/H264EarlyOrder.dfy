/** Output before the buffer is full: the reorder rule is always safe, the other early rules are safe where enough
    frames wait, and a stream in which they output frame after frame in order. */
module H264EarlyOrder {
  import opened Seqs
  import opened H264DpbSpec
  import opened H264Machine
  import opened H264Run
  import opened H264Keep
  import H264Capacity
  import opened H264Reorder
  import opened H264Order
  import opened H264NormalOrder

  lemma LowestIsFirst(pics: seq<Pic>)
    requires Lowest(pics) >= 0
    ensures WaitingFrom(pics, pics[Lowest(pics)].poc)
  {
  }

  /** In any mode, while frame k asks for room: what leaves is covered when more frames wait than may be reordered, the
      current frame included if it does not precede them. */
  lemma EnoughIsCovered(ss: seq<Slice>, b: nat, e: nat, k: nat, n: nat, cfg: Config)
    requires Bounded(ss, b, e, cfg) && b <= k < e && Start(Run(ss[..k], cfg), ss[k], cfg).ok
    requires var pics := Bumps(MarkedAt(ss, k, cfg), n, cfg).pics;
             && Lowest(pics) >= 0
             && Count(pics, Waiting) + (if FinalPoc(ss[k]) >= pics[Lowest(pics)].poc then 1 else 0)
                > cfg.limits.maxNumReorderFrames
    ensures var pics := Bumps(MarkedAt(ss, k, cfg), n, cfg).pics;
            Covered(ss, b, k, pics[Lowest(pics)].poc, cfg.limits.maxNumReorderFrames)
  {
    hide Start, Run, Marked, Covered, FinalPoc, Bumps, Count, WaitingFrom;
    var t := MarkedAt(ss, k, cfg);
    var pics := Bumps(t, n, cfg).pics;
    MarkedWithin(ss, b, e, k, cfg);
    forall c
      ensures Count(pics, WaitingAnd(PocFrom(c))) <= Count(ss[b..k], SliceFrom(c))
    {
      BumpsNoGrowth(t, n, cfg, PocFrom(c));
    }
    LowestIsFirst(pics);
    WaitingCovers(pics, ss, b, k, pics[Lowest(pics)].poc, cfg.limits.maxNumReorderFrames);
  }

  /** The reorder rule sees enough of them. */
  lemma RuleIsCovered(ss: seq<Slice>, b: nat, e: nat, k: nat, n: nat, cfg: Config)
    requires Bounded(ss, b, e, cfg) && b <= k < e && Start(Run(ss[..k], cfg), ss[k], cfg).ok
    requires ReorderRule(Bumps(MarkedAt(ss, k, cfg), n, cfg).pics, cfg.limits.maxNumReorderFrames)
    ensures var pics := Bumps(MarkedAt(ss, k, cfg), n, cfg).pics;
            Covered(ss, b, k, pics[Lowest(pics)].poc, cfg.limits.maxNumReorderFrames)
  {
    hide Start, Run, Marked, Covered, Bumps;
    var pics := Bumps(MarkedAt(ss, k, cfg), n, cfg).pics;
    RuleCounts(pics, cfg.limits.maxNumReorderFrames);
    CountMonotone(pics, WaitingAnd(PocFrom(pics[Lowest(pics)].poc)), Waiting, |pics|);
    EnoughIsCovered(ss, b, e, k, n, cfg);
  }

  // ---- Streams frame by frame -----------------------------------------------------------------------------

  /** What output order sees of a stored frame. */
  datatype Cell = Cell(poc: int, needed: bool, ref: bool)

  /** The stored frames, when marks and reference flags agree. */
  ghost predicate Holds(pics: seq<Pic>, cells: seq<Cell>) {
    && |pics| == |cells|
    && forall i :: 0 <= i < |pics| ==>
         && pics[i].poc == cells[i].poc && pics[i].needed == cells[i].needed && !pics[i].nonexisting
         && pics[i].refPic == cells[i].ref == IsRef(pics[i])
  }

  lemma PlainStart(st: State, s: Slice, cfg: Config)
    requires ValidNumbers(st, s, cfg) && !cfg.gapsAllowed && !s.idr
    ensures Start(st, s, cfg) == Gapped(st.(pics := Map(st.pics, Renumber(s.frameNum, cfg.maxFrameNum))), true)
  {
  }

  /** The window and the gaps leave such a frame's buffer alone. */
  lemma PlainMarked(st: State, s: Slice, cells: seq<Cell>, cfg: Config)
    requires ValidNumbers(st, s, cfg) && Holds(st.pics, cells) && Each(st.pics, InUse)
    requires !cfg.gapsAllowed && !s.idr && !s.adaptive && (s.isRef ==> Count(st.pics, IsRef) < MaxRefs(cfg))
    ensures var g := Start(st, s, cfg);
            var t, cur := Marked(g.st, s, cfg), CurrentPic(g.st, s, cfg);
            && g.ok && Holds(t.pics, cells) && Each(t.pics, InUse) && cur == NewPic(s)
            && t.emitted == st.emitted && t.lastPoc == st.lastPoc && t.lastNonRef == st.lastNonRef
  {
    hide Start, Count;
    var r := Map(st.pics, Renumber(s.frameNum, cfg.maxFrameNum));
    PlainStart(st, s, cfg);
    H264Capacity.RenumberCounts(st.pics, s.frameNum, cfg.maxFrameNum);
    FilterAll(r, |r|, InUse);
  }

  function Frame(id: nat, poc: int, frameNum: int, isRef: bool): Slice {
    Slice(id, poc, frameNum, isRef, id == 0, false, false, false, [], 0)
  }

  /** The state after some frames: what is stored, what was output last and whether that was no reference. */
  ghost predicate At(st: State, cells: seq<Cell>, out: seq<int>, nonRef: bool) {
    && Holds(st.pics, cells) && Each(st.pics, InUse) && st.lastNonRef == nonRef
    && |st.emitted| == |out| && forall i :: 0 <= i < |out| ==> st.emitted[i].poc == out[i]
  }

  lemma FirstFrame(cfg: Config)
    requires cfg.maxFrameNum == 16 && !cfg.liveBump
    ensures At(Run([Frame(0, 0, 0, true)], cfg), [Cell(0, true, true)], [], false)
  {
    var s := Frame(0, 0, 0, true);
    assert [s][..0] == [];
    var g := Start(Initial, s, cfg);
    BumpAllUnfolds(Initial, cfg);
    assert g.ok && g.st.pics == [] && g.st.emitted == [];
    var t, cur := Marked(g.st, s, cfg), CurrentPic(g.st, s, cfg);
    assert t.pics == [] && t.emitted == [];
    BumpWhileUnfolds(t, Some(cur), cfg.mode, cfg);
  }

  /** The next frame of a stream: the buffer as it is when that asks for room. */
  lemma NextFrame(before: seq<Slice>, s: Slice, cells: seq<Cell>, out: seq<int>, nonRef: bool, cfg: Config)
    returns (t: State)
    requires Numbered(before, cfg) && At(Run(before, cfg), cells, out, nonRef)
    requires 0 <= s.frameNum < cfg.maxFrameNum && !cfg.gapsAllowed && !cfg.liveBump && !s.idr && !s.adaptive
    requires s.isRef ==> Count(cells, RefCell) < MaxRefs(cfg)
    ensures Numbered(before + [s], cfg) && Run(before + [s], cfg) == Insert(t, NewPic(s), cfg)
    ensures At(t, cells, out, nonRef)
  {
    hide Start, Marked, Insert, Run, CurrentPic, Count, Each;
    var st := Run(before, cfg);
    ReferenceCells(st.pics, cells);
    PlainMarked(st, s, cells, cfg);
    t := Marked(Start(st, s, cfg).st, s, cfg);
    assert (before + [s])[..|before|] == before;
    RunLast(before + [s], cfg);
  }

  lemma RunLast(ss: seq<Slice>, cfg: Config)
    requires Numbered(ss, cfg) && ss != []
    ensures Run(ss, cfg) == Step(Run(ss[..|ss| - 1], cfg), ss[|ss| - 1], cfg)
  {
  }

  predicate RefCell(c: Cell) { c.ref }

  lemma ReferenceCells(pics: seq<Pic>, cells: seq<Cell>)
    requires Holds(pics, cells)
    ensures Count(pics, IsRef) == Count(cells, RefCell)
  {
    CountSame(pics, IsRef, cells, RefCell, |pics|);
  }

  // ---- Early output in order -------------------------------------------------------------------------------

  const STEADY := Config(Limits(5, 1), 4, 16, false, LowLatency, false, 0)

  const STEADY_END: seq<Cell> := [Cell(0, false, true), Cell(4, false, true), Cell(8, true, true), Cell(6, true, false)]

  /** Counts 0, 4, 2, 8, 6: every other frame is reordered around one. */
  function Steady(): seq<Slice> {
    [Frame(0, 0, 0, true), Frame(1, 4, 1, true), Frame(2, 2, 2, false), Frame(3, 8, 2, true), Frame(4, 6, 3, false)]
  }

  lemma SteadySecond(t: State)
    requires At(t, [Cell(0, true, true)], [], false)
    ensures At(Insert(t, NewPic(Frame(1, 4, 1, true)), STEADY), [Cell(0, false, true), Cell(4, true, true)], [0], false)
  {
    var cur := NewPic(Frame(1, 4, 1, true));
    BumpWhileUnfolds(t, Some(cur), LowLatency, STEADY);
    assert Lowest(t.pics) == 0;
    BumpWhileUnfolds(BumpOnce(t, false, STEADY), Some(cur), LowLatency, STEADY);
  }

  lemma SteadyThird(t: State)
    requires At(t, [Cell(0, false, true), Cell(4, true, true)], [0], false)
    ensures At(Insert(t, NewPic(Frame(2, 2, 2, false)), STEADY),
               [Cell(0, false, true), Cell(4, true, true), Cell(2, true, false)], [0], false)
  {
    assert Lowest(t.pics) == 1;
    BumpWhileUnfolds(t, Some(NewPic(Frame(2, 2, 2, false))), LowLatency, STEADY);
  }

  lemma SteadyFourth(t: State)
    requires At(t, [Cell(0, false, true), Cell(4, true, true), Cell(2, true, false)], [0], false)
    ensures At(Insert(t, NewPic(Frame(3, 8, 2, true)), STEADY),
               [Cell(0, false, true), Cell(4, true, true), Cell(8, true, true)], [0, 2], true)
  {
    var cur := NewPic(Frame(3, 8, 2, true));
    assert t.pics[1].poc == 4 && t.pics[2].poc == 2;
    assert Lowest(t.pics) == 2;
    BumpWhileUnfolds(t, Some(cur), LowLatency, STEADY);
    SteadyStops(BumpOnce(t, false, STEADY), cur);
  }

  /** A later reference frame does not drive out a reference that waits alone behind one that is out. */
  lemma SteadyStops(b: State, cur: Pic)
    requires |b.pics| == 2 && !b.pics[0].needed && b.pics[1].needed && b.pics[1].poc == 4 && b.pics[1].refPic
    requires cur.refPic
    ensures BumpWhile(b, Some(cur), LowLatency, STEADY) == b
  {
    assert Lowest(b.pics) == 1;
    assert CountTo(b.pics, 1, Waiting) == 0;
    BumpWhileUnfolds(b, Some(cur), LowLatency, STEADY);
  }

  lemma SteadyFifth(t: State)
    requires At(t, [Cell(0, false, true), Cell(4, true, true), Cell(8, true, true)], [0, 2], true)
    ensures At(Insert(t, NewPic(Frame(4, 6, 3, false)), STEADY), STEADY_END, [0, 2, 4], false)
  {
    var cur := NewPic(Frame(4, 6, 3, false));
    assert t.pics[1].poc == 4 && t.pics[2].poc == 8;
    assert Lowest(t.pics) == 1;
    BumpWhileUnfolds(t, Some(cur), LowLatency, STEADY);
    var b := BumpOnce(t, false, STEADY);
    assert !b.pics[0].needed && !b.pics[1].needed && b.pics[2].needed;
    assert Lowest(b.pics) == 2 && CountTo(b.pics, 1, Waiting) == 0 && CountTo(b.pics, 2, Waiting) == 0;
    BumpWhileUnfolds(b, Some(cur), LowLatency, STEADY);
  }

  /** Where the first k frames lead. */
  ghost predicate Reaches(ss: seq<Slice>, k: nat, cells: seq<Cell>, out: seq<int>, nonRef: bool, cfg: Config) {
    Numbered(ss, cfg) && k <= |ss| && At(Run(ss[..k], cfg), cells, out, nonRef)
  }

  lemma SteadyRuns()
    ensures Numbered(Steady(), STEADY)
    ensures Reaches(Steady(), 1, [Cell(0, true, true)], [], false, STEADY)
    ensures Reaches(Steady(), 2, [Cell(0, false, true), Cell(4, true, true)], [0], false, STEADY)
    ensures Reaches(Steady(), 3, [Cell(0, false, true), Cell(4, true, true), Cell(2, true, false)], [0], false, STEADY)
    ensures Reaches(Steady(), 4, [Cell(0, false, true), Cell(4, true, true), Cell(8, true, true)], [0, 2], true, STEADY)
    ensures Reaches(Steady(), 5, STEADY_END, [0, 2, 4], false, STEADY)
  {
    hide Run, Insert, At;
    var ss := Steady();
    FirstFrame(STEADY);
    assert ss[..1] == [ss[0]] && ss[..2] == ss[..1] + [ss[1]] && ss[..3] == ss[..2] + [ss[2]];
    assert ss[..4] == ss[..3] + [ss[3]] && ss[..5] == ss[..4] + [ss[4]];
    var t := NextFrame(ss[..1], ss[1], [Cell(0, true, true)], [], false, STEADY);
    SteadySecond(t);
    t := NextFrame(ss[..2], ss[2], [Cell(0, false, true), Cell(4, true, true)], [0], false, STEADY);
    SteadyThird(t);
    t := NextFrame(ss[..3], ss[3], [Cell(0, false, true), Cell(4, true, true), Cell(2, true, false)], [0], false,
                   STEADY);
    SteadyFourth(t);
    t := NextFrame(ss[..4], ss[4], [Cell(0, false, true), Cell(4, true, true), Cell(8, true, true)], [0, 2], true,
                   STEADY);
    SteadyFifth(t);
  }

  /** How many of the first frames end up at c or later. */
  lemma SteadyCount(c: int)
    ensures var ss := Steady();
            && Count(ss[0..0], SliceFrom(c)) == 0
            && Count(ss[0..1], SliceFrom(c)) == (if 0 >= c then 1 else 0)
            && Count(ss[0..2], SliceFrom(c)) == Count(ss[0..1], SliceFrom(c)) + (if 4 >= c then 1 else 0)
            && Count(ss[0..3], SliceFrom(c)) == Count(ss[0..2], SliceFrom(c)) + (if 2 >= c then 1 else 0)
            && Count(ss[0..4], SliceFrom(c)) == Count(ss[0..3], SliceFrom(c)) + (if 8 >= c then 1 else 0)
            && Count(ss[0..5], SliceFrom(c)) == Count(ss[0..4], SliceFrom(c)) + (if 6 >= c then 1 else 0)
  {
    var ss := Steady();
    assert ss[0..0] == [] && ss[0..1] == ss[0..0] + [ss[0]] && ss[0..2] == ss[0..1] + [ss[1]];
    assert ss[0..3] == ss[0..2] + [ss[2]] && ss[0..4] == ss[0..3] + [ss[3]] && ss[0..5] == ss[0..4] + [ss[4]];
    CountAppend(ss[0..0], ss[0], SliceFrom(c));
    CountAppend(ss[0..1], ss[1], SliceFrom(c));
    CountAppend(ss[0..2], ss[2], SliceFrom(c));
    CountAppend(ss[0..3], ss[3], SliceFrom(c));
    CountAppend(ss[0..4], ss[4], SliceFrom(c));
  }

  lemma SteadyCounts()
    ensures var ss := Steady();
            && (forall j :: 0 <= j < 5 ==> InTime(ss, 0, j, 1))
            && Covered(ss, 0, 1, 0, 1) && Covered(ss, 0, 3, 2, 1) && Covered(ss, 0, 4, 4, 1)
  {
    hide Count;
    var ss := Steady();
    forall j | 0 <= j < 5
      ensures InTime(ss, 0, j, 1)
    {
      SteadyCount(FinalPoc(ss[j]) + 1);
    }
    SteadyCount(0);
    SteadyCount(2);
    SteadyCount(4);
  }

  /** Low latency, one frame of reordering: 0, 2 and 4 leave one by one, long before any drain, each of them covered. */
  lemma SteadyIsTimely()
    ensures Bounded(Steady(), 0, 5, STEADY) && AllTimely(Steady(), 0, 5, STEADY)
    ensures Reaches(Steady(), 5, STEADY_END, [0, 2, 4], false, STEADY)
  {
    hide Run, InTime, Covered, MarkedAt;
    SteadyRuns();
    SteadyCounts();
    var ss := Steady();
    FirstOutputsNothing(ss, STEADY);
    assert Timely(ss, 0, 0, STEADY);
    assert Timely(ss, 0, 1, STEADY);
    assert Timely(ss, 0, 2, STEADY);
    assert Timely(ss, 0, 3, STEADY);
    assert Timely(ss, 0, 4, STEADY);
  }
}
