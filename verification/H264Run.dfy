/** What holds over every run of the H.264 decoding loop: no frame is lost, inferred frames are never output, the list
    keeps decoding order, and the drain and direct output respect output order. */
module H264Run {
  import opened Seqs
  import opened H264DpbSpec
  import opened H264Machine
  import opened H264Marking
  import opened H264Keep

  // ---- Conservation -----------------------------------------------------------------------------------

  /** q looks only at what marking and output leave alone. */
  ghost predicate Stable(q: Pic -> bool) {
    forall a: Pic, b: Pic :: a.id == b.id && a.poc == b.poc && a.nonexisting == b.nonexisting ==> q(a) == q(b)
  }

  function WaitingAnd(q: Pic -> bool): Pic -> bool { (p: Pic) => p.needed && q(p) }

  /** What is out, what still waits and what was thrown away, counted by q. */
  function Balance(st: State, q: Pic -> bool): nat {
    Count(st.emitted, q) + Count(st.pics, WaitingAnd(q)) + Count(st.discarded, q)
  }

  /** Every finished frame is emitted, waiting or discarded, whichever property q picks it out by. */
  ghost predicate Conserved(st: State, q: Pic -> bool) {
    Count(st.finished, q) == Balance(st, q)
  }

  lemma BumpOnceConserves(st: State, drain: bool, cfg: Config, q: Pic -> bool)
    requires Lowest(st.pics) >= 0 && Stable(q)
    ensures Balance(BumpOnce(st, drain, cfg), q) == Balance(st, q)
  {
    var i := Lowest(st.pics);
    OutputCount(st.pics, i, drain, WaitingAnd(q));
    CountAppend(st.emitted, st.pics[i].(needed := false), q);
  }

  lemma {:induction false} BumpWhileConserves(st: State, toInsert: Option<Pic>, mode: BumpMode, cfg: Config,
                                              q: Pic -> bool)
    requires Stable(q)
    ensures Balance(BumpWhile(st, toInsert, mode, cfg), q) == Balance(st, q)
    ensures BumpWhile(st, toInsert, mode, cfg).finished == st.finished
    decreases Count(st.pics, Waiting)
  {
    hide NeedsBump, Balance, Stable;
    if NeedsBump(st.pics, cfg.limits, st.lastPoc, st.lastNonRef, toInsert, mode) && Lowest(st.pics) >= 0 {
      BumpOnceConserves(st, false, cfg, q);
      BumpWhileConserves(BumpOnce(st, false, cfg), toInsert, mode, cfg, q);
    }
  }

  lemma {:induction false} BumpAllConserves(st: State, cfg: Config, q: Pic -> bool)
    requires Stable(q)
    ensures var r := BumpAll(st, cfg);
            && Balance(r, q) == Balance(st, q) && Balance(r, q) == Count(r.emitted, q) + Count(r.discarded, q)
            && r.finished == st.finished && r.discarded == st.discarded
    decreases Count(st.pics, Waiting)
  {
    if Lowest(st.pics) >= 0 {
      BumpOnceConserves(st, true, cfg, q);
      BumpAllConserves(BumpOnce(st, true, cfg), cfg, q);
    } else {
      CountAll(st.pics, WaitingAnd(q), |st.pics|);
    }
  }

  lemma AlikeCount(a: seq<Pic>, b: seq<Pic>, q: Pic -> bool)
    requires Alike(a, b) && Stable(q)
    ensures Count(a, WaitingAnd(q)) == Count(b, WaitingAnd(q)) == Count(DeleteUnused(b), WaitingAnd(q))
  {
    forall i | 0 <= i < |a|
      ensures WaitingAnd(q)(a[i]) == WaitingAnd(q)(b[i])
    {
      assert SamePicture(a[i], b[i]);
    }
    CountSame(a, WaitingAnd(q), b, WaitingAnd(q), |a|);
    CountFilter(b, InUse, WaitingAnd(q));
  }

  lemma StoreConserves(st: State, p: Pic, q: Pic -> bool)
    requires Stable(q)
    ensures Balance(Store(st, p), q) == Balance(st, q) + if !p.nonexisting && q(p) then 1 else 0
  {
    CountAppend(st.pics, Stored(p), WaitingAnd(q));
  }

  lemma GapStepConserves(st: State, n: int, poc: int, cfg: Config, q: Pic -> bool)
    requires Stable(q) && Conserved(st, q)
    ensures Conserved(GapStep(st, n, poc, cfg).st, q)
  {
    hide BumpWhile, Slide, Stable, Filter;
    var renumbered := Map(st.pics, Renumber(n, cfg.maxFrameNum));
    var slid := Slide(renumbered, MaxRefs(cfg));
    MapAlike(st.pics, Renumber(n, cfg.maxFrameNum));
    AlikeCount(st.pics, renumbered, q);
    SlideAlike(renumbered, MaxRefs(cfg));
    AlikeCount(renumbered, slid.pics, q);
    var cleaned := st.(pics := DeleteUnused(slid.pics));
    BumpWhileConserves(cleaned, Some(GapFrame(n, poc)), NormalLatency, cfg, q);
    StoreConserves(BumpWhile(cleaned, Some(GapFrame(n, poc)), NormalLatency, cfg), GapFrame(n, poc), q);
  }

  lemma {:induction false} GapLoopConserves(st: State, n: int, target: int, poc: int, cfg: Config, q: Pic -> bool)
    requires 0 <= n < cfg.maxFrameNum && 0 <= target < cfg.maxFrameNum
    requires Stable(q) && Conserved(st, q)
    ensures Conserved(GapLoop(st, n, target, poc, cfg).st, q)
    decreases Ahead(n, target, cfg.maxFrameNum)
  {
    hide GapStep, Conserved, Stable;
    if n != target {
      GapStepConserves(st, n, poc, cfg, q);
      var g := GapStep(st, n, poc, cfg);
      if g.ok {
        GapLoopConserves(g.st, Next(n, cfg.maxFrameNum), target, poc, cfg, q);
      }
    }
  }

  lemma ClearConserves(st: State, cfg: Config, q: Pic -> bool)
    requires Stable(q) && Conserved(st, q) && st.pending <= |st.emitted|
    ensures Conserved(Clear(st, cfg), q)
  {
    var k := |st.emitted| - st.pending;
    var thrown := BumpAll(st.(emitted := []), cfg).emitted;
    BumpAllConserves(st.(emitted := []), cfg, q);
    assert st.emitted == st.emitted[..k] + st.emitted[k..];
    CountConcat(st.emitted[..k], st.emitted[k..], q);
    CountConcat(st.discarded, st.emitted[k..], q);
    CountConcat(st.discarded + st.emitted[k..], thrown, q);
  }

  lemma DrainConserves(st: State, cfg: Config, q: Pic -> bool)
    requires Stable(q) && Conserved(st, q)
    ensures Conserved(Drain(st, cfg), q)
  {
    BumpAllConserves(st, cfg, q);
  }

  lemma StartConserves(st: State, s: Slice, cfg: Config, q: Pic -> bool)
    requires ValidNumbers(st, s, cfg) && Stable(q) && Conserved(st, q)
    ensures Conserved(Start(st, s, cfg).st, q)
  {
    hide GapLoop, Stable, Drain, Clear, IsGap;
    var st0 := if s.idr then st.(prevRefFrameNum := 0) else st;
    if IsGap(st0, s, cfg) {
      GapLoopConserves(st0, Next(st0.prevRefFrameNum, cfg.maxFrameNum), s.frameNum, s.gapPoc, cfg, q);
    }
    var g := HandleGap(st0, s, cfg);
    if g.ok {
      DrainConserves(g.st, cfg, q);
      ClearConserves(g.st, cfg, q);
      var flushed := if !s.idr then g.st else if s.noOutputOfPriorPics then Clear(g.st, cfg) else Drain(g.st, cfg);
      MapAlike(flushed.pics, Renumber(s.frameNum, cfg.maxFrameNum));
      AlikeCount(flushed.pics, Map(flushed.pics, Renumber(s.frameNum, cfg.maxFrameNum)), q);
    }
  }

  /** Once marked, the current frame counts as finished but is neither out nor waiting yet. */
  lemma MarkedBalance(st: State, s: Slice, cfg: Config, q: Pic -> bool)
    requires Stable(q) && Conserved(st, q)
    ensures var t := Marked(st, s, cfg);
            Count(t.finished, q) == Balance(t, q) + if q(CurrentPic(st, s, cfg)) then 1 else 0
  {
    hide MarkedState, Stable, Filter;
    var m := MarkedState(st, s, cfg);
    MarkedStateAlike(st, s, cfg);
    AlikeCount(st.pics, m.pics, q);
    CountAppend(st.finished, m.cur, q);
    var t := st.(pics := DeleteUnused(m.pics), maxLongTermFrameIdx := m.maxLongTermFrameIdx,
                 prevRefFrameNum := if s.isRef then m.cur.frameNum else st.prevRefFrameNum,
                 finished := st.finished + [m.cur]);
    BumpAllConserves(t, cfg, q);
  }

  lemma InsertBalance(st: State, cur: Pic, cfg: Config, q: Pic -> bool)
    requires Stable(q) && !cur.nonexisting
    ensures var r := Insert(st, cur, cfg);
            Balance(r, q) == Balance(st, q) + (if q(cur) then 1 else 0) && r.finished == st.finished
  {
    hide BumpWhile, Stable;
    BumpWhileConserves(st, Some(cur), cfg.mode, cfg, q);
    var b := BumpWhile(st, Some(cur), cfg.mode, cfg);
    StoreConserves(b, cur, q);
    CountAppend(b.emitted, cur, q);
  }

  lemma StepConserves(st: State, s: Slice, cfg: Config, q: Pic -> bool)
    requires ValidNumbers(st, s, cfg) && Stable(q) && Conserved(st, q)
    ensures Conserved(Step(st, s, cfg), q)
  {
    hide Start, Stable, Marked, MarkedState, Insert, Balance, BumpWhile;
    StartConserves(st, s, cfg, q);
    var g := Start(st, s, cfg);
    if g.ok {
      var cur, t := CurrentPic(g.st, s, cfg), Marked(g.st, s, cfg);
      CurrentKeeps(g.st, s, cfg);
      MarkedBalance(g.st, s, cfg, q);
      InsertBalance(t, cur, cfg, q);
      BumpWhileConserves(Insert(t, cur, cfg), None, cfg.mode, cfg, q);
    }
  }

  lemma InitialConserved(q: Pic -> bool)
    ensures Conserved(Initial, q)
  {
  }

  lemma {:induction false} RunConserves(ss: seq<Slice>, cfg: Config, q: Pic -> bool)
    requires Numbered(ss, cfg) && Stable(q)
    ensures Conserved(Run(ss, cfg), q)
  {
    hide Step, Conserved, Stable;
    if ss == [] {
      InitialConserved(q);
    } else {
      RunConserves(ss[..|ss| - 1], cfg, q);
      StepConserves(Run(ss[..|ss| - 1], cfg), ss[|ss| - 1], cfg, q);
    }
  }

  predicate Inferred(p: Pic) { p.nonexisting }

  lemma {:induction false} RunFinishesDecoded(ss: seq<Slice>, cfg: Config)
    requires Numbered(ss, cfg)
    ensures Count(Run(ss, cfg).finished, Inferred) == 0
  {
    hide Start, Finish;
    if ss != [] {
      var before, s := Run(ss[..|ss| - 1], cfg), ss[|ss| - 1];
      RunFinishesDecoded(ss[..|ss| - 1], cfg);
      StartSound(before, s, cfg);
      var t := Start(before, s, cfg).st;
      FinishSound(t, s, cfg);
      CurrentKeeps(t, s, cfg);
      CountAppend(t.finished, CurrentPic(t, s, cfg), Inferred);
    }
  }

  /** Frames inferred for a gap are never output, and none waits to be. */
  lemma InferredNeverOutput(ss: seq<Slice>, cfg: Config)
    requires Numbered(ss, cfg)
    ensures var r := Run(ss, cfg);
            && (forall i :: 0 <= i < |r.emitted| ==> !r.emitted[i].nonexisting)
            && (forall i :: 0 <= i < |r.pics| && r.pics[i].needed ==> !r.pics[i].nonexisting)
  {
    var r := Run(ss, cfg);
    RunFinishesDecoded(ss, cfg);
    RunConserves(ss, cfg, Inferred);
    CountAll(r.emitted, Inferred, |r.emitted|);
    CountAll(r.pics, WaitingAnd(Inferred), |r.pics|);
    assert forall i :: 0 <= i < |r.pics| ==> !WaitingAnd(Inferred)(r.pics[i]);
  }

  // ---- Order --------------------------------------------------------------------------------------------

  predicate InDecodingOrder(a: Pic, b: Pic) { a.nonexisting || b.nonexisting || a.id < b.id }

  function IdBelow(bound: nat): Pic -> bool { (p: Pic) => p.nonexisting || p.id < bound }

  lemma OrderLasts(bound: nat)
    ensures Lasting(InDecodingOrder, IdBelow(bound)) && AcceptsGaps(InDecodingOrder, IdBelow(bound))
  {
  }

  lemma AlikeKeepsOrder(a: seq<Pic>, b: seq<Pic>, x: Pic)
    requires Alike(a, b) && Keeps(a, InDecodingOrder, IdBelow(x.id))
    ensures Keeps(b, InDecodingOrder, And(IdBelow(x.id + 1), InDecodingOrder, x))
  {
    forall i, j | 0 <= i < j < |b|
      ensures InDecodingOrder(b[i], b[j])
    {
      assert InDecodingOrder(a[i], a[j]) && SamePicture(a[i], b[i]) && SamePicture(a[j], b[j]);
    }
    forall i | 0 <= i < |b|
      ensures And(IdBelow(x.id + 1), InDecodingOrder, x)(b[i])
    {
      assert IdBelow(x.id)(a[i]) && SamePicture(a[i], b[i]);
    }
  }

  lemma WidenBound(pics: seq<Pic>, lo: nat, hi: nat)
    requires lo <= hi && Keeps(pics, InDecodingOrder, IdBelow(lo))
    ensures Keeps(pics, InDecodingOrder, IdBelow(hi))
  {
  }

  lemma StepKeepsOrder(st: State, s: Slice, cfg: Config)
    requires ValidNumbers(st, s, cfg) && Keeps(st.pics, InDecodingOrder, IdBelow(s.id))
    ensures Keeps(Step(st, s, cfg).pics, InDecodingOrder, IdBelow(s.id + 1))
  {
    hide Start, Finish, MarkedState, Lasting, AcceptsGaps, Alike;
    OrderLasts(s.id);
    OrderLasts(s.id + 1);
    StartKeeps(st, s, cfg, InDecodingOrder, IdBelow(s.id));
    var g := Start(st, s, cfg);
    if g.ok {
      var cur := CurrentPic(g.st, s, cfg);
      CurrentKeeps(g.st, s, cfg);
      MarkedStateAlike(g.st, s, cfg);
      AlikeKeepsOrder(g.st.pics, MarkedState(g.st, s, cfg).pics, Stored(cur));
      FinishKeeps(g.st, s, cfg, InDecodingOrder, IdBelow(s.id + 1));
    } else {
      WidenBound(g.st.pics, s.id, s.id + 1);
    }
  }

  ghost predicate IncreasingIds(ss: seq<Slice>) {
    forall i, j :: 0 <= i < j < |ss| ==> ss[i].id < ss[j].id
  }

  /** The list always holds the decoded frames in decoding order. */
  lemma {:induction false} RunKeepsDecodingOrder(ss: seq<Slice>, cfg: Config, bound: nat)
    requires Numbered(ss, cfg) && IncreasingIds(ss)
    requires ss != [] ==> ss[|ss| - 1].id < bound
    ensures Keeps(Run(ss, cfg).pics, InDecodingOrder, IdBelow(bound))
  {
    hide Step, Keeps;
    if ss == [] {
      NothingStored(bound);
    } else {
      var before, s := ss[..|ss| - 1], ss[|ss| - 1];
      RunKeepsDecodingOrder(before, cfg, s.id);
      StepKeepsOrder(Run(before, cfg), s, cfg);
      WidenBound(Run(ss, cfg).pics, s.id + 1, bound);
    }
  }

  lemma NothingStored(bound: nat)
    ensures Keeps(Initial.pics, InDecodingOrder, IdBelow(bound))
  {
  }

  ghost predicate NonDecreasing(ps: seq<Pic>) {
    forall i, j :: 0 <= i < j < |ps| ==> ps[i].poc <= ps[j].poc
  }

  ghost predicate AllFrom(ps: seq<Pic>, c: int) {
    forall i :: 0 <= i < |ps| ==> ps[i].poc >= c
  }

  ghost predicate WaitingFrom(pics: seq<Pic>, c: int) {
    forall i :: 0 <= i < |pics| && pics[i].needed ==> pics[i].poc >= c
  }

  lemma PrependSorted(all: seq<Pic>, k: nat)
    requires k < |all| && NonDecreasing(all[k + 1..]) && AllFrom(all[k + 1..], all[k].poc)
    ensures NonDecreasing(all[k..]) && AllFrom(all[k..], all[k].poc)
  {
    assert all[k..] == [all[k]] + all[k + 1..];
  }

  lemma {:induction false} BumpAllSorted(st: State, cfg: Config, c: int)
    requires WaitingFrom(st.pics, c)
    ensures var r := BumpAll(st, cfg);
            && st.emitted <= r.emitted
            && NonDecreasing(r.emitted[|st.emitted|..]) && AllFrom(r.emitted[|st.emitted|..], c)
    decreases Count(st.pics, Waiting)
  {
    hide NonDecreasing;
    var i := Lowest(st.pics);
    if i >= 0 {
      var t := BumpOnce(st, true, cfg);
      BumpAllSorted(t, cfg, st.pics[i].poc);
      var r := BumpAll(st, cfg);
      assert r.emitted[|st.emitted|] == t.emitted[|st.emitted|];
      PrependSorted(r.emitted, |st.emitted|);
    } else {
      NothingSorted();
      assert st.emitted[|st.emitted|..] == [];
    }
  }

  lemma NothingSorted()
    ensures NonDecreasing([])
  {
  }

  /** A drain outputs exactly the waiting frames, in non-decreasing order count, and leaves buffer and queue empty. */
  lemma DrainInOrder(st: State, cfg: Config, q: Pic -> bool)
    requires Stable(q)
    ensures var r := Drain(st, cfg);
            && r.pics == [] && r.pending == 0 && st.emitted <= r.emitted
            && NonDecreasing(r.emitted[|st.emitted|..])
            && Count(r.emitted[|st.emitted|..], q) == Count(st.pics, WaitingAnd(q))
  {
    hide NonDecreasing;
    var r := Drain(st, cfg);
    var low := if Lowest(st.pics) >= 0 then st.pics[Lowest(st.pics)].poc else 0;
    BumpAllSorted(st, cfg, low);
    BumpAllConserves(st, cfg, q);
    assert r.emitted == st.emitted + r.emitted[|st.emitted|..];
    CountConcat(st.emitted, r.emitted[|st.emitted|..], q);
  }

  /** A frame output directly precedes, or ties with, every frame still waiting. */
  lemma DirectOutputIsFirst(st: State, s: Slice, cfg: Config)
    requires !s.isRef
    ensures var cur, t := CurrentPic(st, s, cfg), Marked(st, s, cfg);
            var b, r := BumpWhile(t, Some(cur), cfg.mode, cfg), Insert(t, cur, cfg);
            if HasEmpty(b.pics, cfg.limits) then r == Store(b, cur)
            else r == Emit(b, cur, cfg) && WaitingFrom(r.pics, cur.poc)
  {
    hide MarkedState;
    var cur, t := CurrentPic(st, s, cfg), Marked(st, s, cfg);
    CurrentKeeps(st, s, cfg);
    BumpWhileStops(t, Some(cur), cfg.mode, cfg);
  }

  lemma {:induction false} BumpWhileStops(st: State, toInsert: Option<Pic>, mode: BumpMode, cfg: Config)
    ensures var r := BumpWhile(st, toInsert, mode, cfg);
            NeedsBump(r.pics, cfg.limits, r.lastPoc, r.lastNonRef, toInsert, mode) ==> Lowest(r.pics) < 0
    decreases Count(st.pics, Waiting)
  {
    hide NeedsBump;
    if NeedsBump(st.pics, cfg.limits, st.lastPoc, st.lastNonRef, toInsert, mode) && Lowest(st.pics) >= 0 {
      BumpWhileStops(BumpOnce(st, false, cfg), toInsert, mode, cfg);
    }
  }
}
