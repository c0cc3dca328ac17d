/** What an IDR frame does to the frames before it, and a coded video sequence from its first frame up to the next. */
module H264Flush {
  import opened Seqs
  import opened H264DpbSpec
  import opened H264Machine
  import opened H264Marking
  import opened H264Run
  import opened H264Reorder
  import opened H264Order

  // ---- One IDR frame ------------------------------------------------------------------------------------------

  /** Where an IDR frame finds the decoder: behind the gap that a frame_num other than zero would open. */
  function BeforeFlush(st: State, s: Slice, cfg: Config): State
    requires ValidNumbers(st, s, cfg)
  {
    HandleGap(st.(prevRefFrameNum := 0), s, cfg).st
  }

  /** Of what is output, what has been delivered and what is still queued. */
  function Delivered(st: State): seq<Pic>
    requires st.pending <= |st.emitted|
  {
    st.emitted[..|st.emitted| - st.pending]
  }

  function Queued(st: State): seq<Pic>
    requires st.pending <= |st.emitted|
  {
    st.emitted[|st.emitted| - st.pending..]
  }

  /** An IDR frame whose flag is not set: nothing is thrown away or taken back, and all that waited is output, in
      non-decreasing order count and counted by any property. Buffer and queue are empty. */
  lemma IdrOutputs(st: State, s: Slice, cfg: Config, q: Pic -> bool)
    requires ValidNumbers(st, s, cfg) && s.idr && Start(st, s, cfg).ok && !s.noOutputOfPriorPics && Stable(q)
    ensures var before, after := BeforeFlush(st, s, cfg), Start(st, s, cfg).st;
            && after.pics == [] && after.pending == 0
            && after.discarded == before.discarded && before.emitted <= after.emitted
            && NonDecreasing(after.emitted[|before.emitted|..])
            && Count(after.emitted[|before.emitted|..], q) == Count(before.pics, WaitingAnd(q))
  {
    hide HandleGap, BumpAll, Stable, NonDecreasing, Count;
    DrainInOrder(BeforeFlush(st, s, cfg), cfg, q);
    BumpAllAppends(BeforeFlush(st, s, cfg), cfg);
  }

  /** An IDR frame whose flag is set: what has been delivered stays, what was queued or waited is thrown away, the
      waiting frames in non-decreasing order count. */
  lemma IdrDiscards(st: State, s: Slice, cfg: Config, q: Pic -> bool)
    requires ValidNumbers(st, s, cfg) && s.idr && Start(st, s, cfg).ok && s.noOutputOfPriorPics && Stable(q)
    ensures var before, after := BeforeFlush(st, s, cfg), Start(st, s, cfg).st;
            var kept := before.discarded + Queued(before);
            && after.pics == [] && after.pending == 0
            && after.emitted == Delivered(before) && kept <= after.discarded
            && NonDecreasing(after.discarded[|kept|..])
            && Count(after.discarded[|kept|..], q) == Count(before.pics, WaitingAnd(q))
  {
    hide HandleGap, BumpAll, Stable, NonDecreasing, Count;
    var before, after := BeforeFlush(st, s, cfg), Start(st, s, cfg).st;
    DrainInOrder(before.(emitted := [], pending := 0), cfg, q);
    var gone := BumpAll(before.(emitted := []), cfg).emitted;
    BumpAllIgnoresPending(before.(emitted := []), 0, cfg);
    assert gone[0..] == gone;
    assert after.discarded == before.discarded + Queued(before) + gone;
    assert after.discarded[|before.discarded + Queued(before)|..] == gone;
  }

  /** What is output does not depend on the queue. */
  lemma {:induction false} BumpAllIgnoresPending(st: State, pending: nat, cfg: Config)
    ensures BumpAll(st, cfg).emitted == BumpAll(st.(pending := pending), cfg).emitted
    decreases Count(st.pics, Waiting)
  {
    var other := st.(pending := pending);
    if Lowest(st.pics) >= 0 {
      var a, b := BumpOnce(st, true, cfg), BumpOnce(other, true, cfg);
      BumpAllIgnoresPending(a, b.pending, cfg);
      assert b == a.(pending := b.pending);
    }
  }

  /** With frame_num zero, as section 7.4.3 asks, no gap comes first: the IDR frame finds the state of the run. */
  lemma IdrFindsNoGap(st: State, s: Slice, cfg: Config)
    requires ValidNumbers(st, s, cfg) && s.idr && s.frameNum == 0
    ensures Start(st, s, cfg).ok && BeforeFlush(st, s, cfg) == st.(prevRefFrameNum := 0)
  {
    hide Drain, Clear;
  }

  // ---- A sequence up to the next ---------------------------------------------------------------------------

  /** The sequence b to e - 1 has left by the time frame e has begun the next one: in non-decreasing order count, and
      when every frame is decoded with exactly its order counts. An IDR frame whose flag is set takes back what was
      not delivered yet; what was output before is in order all the same. */
  ghost predicate LeavesBefore(ss: seq<Slice>, b: nat, e: nat, cfg: Config)
    requires Numbered(ss, cfg) && b < e < |ss|
  {
    var base, st := MarkedAt(ss, b, cfg).emitted, Run(ss[..e], cfg);
    var out := MarkedAt(ss, e, cfg).emitted;
    && base <= st.emitted && NonDecreasing(st.emitted[|base|..])
    && if ss[e].idr && ss[e].noOutputOfPriorPics then out == Delivered(st)
       else
         && st.emitted <= out && NonDecreasing(out[|base|..])
         && (Decoded(ss, b, e, cfg) ==> forall c :: Count(out[|base|..], PocIs(c)) == Count(ss[b..e], SliceIs(c)))
  }

  lemma SortedIsNonDecreasing(st: State, base: seq<Pic>)
    requires Sorted(st, base)
    ensures base <= st.emitted && NonDecreasing(st.emitted[|base|..])
  {
  }

  /** Started and marked, frame e has output everything from before it. */
  lemma FlushSorted(st: State, s: Slice, cfg: Config, base: seq<Pic>)
    requires ValidNumbers(st, s, cfg) && Sorted(st, base) && Start(st, s, cfg).ok
    requires (s.idr && s.frameNum == 0 && !s.noOutputOfPriorPics) || (!s.idr && Resets(s))
    ensures var t := Marked(Start(st, s, cfg).st, s, cfg);
            && st.emitted <= t.emitted && Sorted(t, base) && t.pics == [] && t.discarded == st.discarded
  {
    hide Start, Marked, MarkedState, Sorted, Resets, Drain, BumpAll, Alike;
    var g := Start(st, s, cfg).st;
    CurrentNumbers(g, s, cfg);
    if s.idr {
      IdrFindsNoGap(st, s, cfg);
      PocIsStable(0);
      IdrOutputs(st, s, cfg, PocIs(0));
      FlushedSorted(st, g, s, cfg, base);
      IdrMarksNothing(g, s, cfg);
      OnlyPicsMatter(g, Marked(g, s, cfg), base);
    } else {
      StartSorted(st, s, cfg, base);
      MarkedStateAlike(g, s, cfg);
      AlikeSorted(g, MarkedState(g, s, cfg).pics, base);
      ResetSorted(g, s, cfg, base);
    }
  }

  lemma FlushedSorted(st: State, g: State, s: Slice, cfg: Config, base: seq<Pic>)
    requires ValidNumbers(st, s, cfg) && Sorted(st, base) && s.idr && s.frameNum == 0 && !s.noOutputOfPriorPics
    requires Start(st, s, cfg).ok && g == Start(st, s, cfg).st
    ensures Sorted(g, base)
  {
    hide BumpAll, WaitingFrom;
    IdrFindsNoGap(st, s, cfg);
    OnlyPicsMatter(st, st.(prevRefFrameNum := 0), base);
    SortedDrain(st.(prevRefFrameNum := 0), cfg, base);
    NothingWaits(g);
  }

  lemma NothingWaits(st: State)
    requires st.pics == []
    ensures forall c :: WaitingFrom(st.pics, c)
  {
  }

  lemma IdrMarksNothing(g: State, s: Slice, cfg: Config)
    requires s.idr && g.pics == []
    ensures var t := Marked(g, s, cfg); t.pics == [] && t.emitted == g.emitted && t.discarded == g.discarded
  {
    CurrentNumbers(g, s, cfg);
    MarkedEmits(g, s, cfg);
  }

  lemma ResetSorted(g: State, s: Slice, cfg: Config, base: seq<Pic>)
    requires Resets(s) && Sorted(g.(pics := DeleteUnused(MarkedState(g, s, cfg).pics)), base)
    ensures var t := Marked(g, s, cfg);
            Sorted(t, base) && t.pics == [] && g.emitted <= t.emitted && t.discarded == g.discarded
  {
    hide MarkedState, Filter, Resets, BumpAll, WaitingFrom;
    CurrentNumbers(g, s, cfg);
    var m := MarkedState(g, s, cfg);
    var u := g.(pics := DeleteUnused(m.pics), maxLongTermFrameIdx := m.maxLongTermFrameIdx,
                prevRefFrameNum := if s.isRef then m.cur.frameNum else g.prevRefFrameNum,
                finished := g.finished + [m.cur]);
    OnlyPicsMatter(g.(pics := DeleteUnused(m.pics)), u, base);
    SortedDrain(u, cfg, base);
    MarkedEmits(g, s, cfg);
    NothingWaits(Marked(g, s, cfg));
  }

  /** With nothing left waiting, all that was finished before frame e is out or thrown away. */
  lemma FlushedCount(ss: seq<Slice>, e: nat, cfg: Config, c: int)
    requires Within(ss, e, cfg) && Start(Run(ss[..e], cfg), ss[e], cfg).ok && MarkedAt(ss, e, cfg).pics == []
    ensures var t := MarkedAt(ss, e, cfg);
            Count(Run(ss[..e], cfg).finished, PocIs(c)) == Count(t.emitted, PocIs(c)) + Count(t.discarded, PocIs(c))
  {
    hide Run, Start, Marked, CurrentPic, Stable, Count;
    var st, g, q := Run(ss[..e], cfg), StartedAt(ss, e, cfg), PocIs(c);
    PocIsStable(c);
    RunConserves(ss[..e], cfg, q);
    StartConserves(st, ss[e], cfg, q);
    StartSound(st, ss[e], cfg);
    MarkedBalance(g, ss[e], cfg, q);
    MarkedSound(g, ss[e], cfg);
    CountAppend(g.finished, CurrentPic(g, ss[e], cfg), q);
    NoneCounted(WaitingAnd(q));
  }

  lemma FlushedComplete(ss: seq<Slice>, b: nat, e: nat, cfg: Config, c: int)
    requires Bounded(ss, b, e, cfg) && Decoded(ss, b, e, cfg) && Within(ss, e, cfg)
    requires Start(Run(ss[..e], cfg), ss[e], cfg).ok && MarkedAt(ss, e, cfg).pics == []
    requires MarkedAt(ss, e, cfg).discarded == Run(ss[..e], cfg).discarded
    requires MarkedAt(ss, b, cfg).emitted <= MarkedAt(ss, e, cfg).emitted
    ensures var base, out := MarkedAt(ss, b, cfg).emitted, MarkedAt(ss, e, cfg).emitted;
            Count(out[|base|..], PocIs(c)) == Count(ss[b..e], SliceIs(c))
  {
    hide StartedAt, MarkedAt, Run, Finished, InTime, SameSequence, Count, Decoded, Start;
    var st, g := Run(ss[..e], cfg), StartedAt(ss, b, cfg);
    var base, out := MarkedAt(ss, b, cfg).emitted, MarkedAt(ss, e, cfg).emitted;
    RunFinishes(ss, b, e, e, cfg);
    FinishedCount(st, g, ss, b, e, c);
    FinishedDiscards(st, g, ss, b, e);
    BaseCount(ss, b, e, cfg, c);
    FlushedCount(ss, e, cfg, c);
    assert out == base + out[|base|..];
    CountConcat(base, out[|base|..], PocIs(c));
  }

  /** Any coded video sequence of a run whose frames leave covered has left, in order and complete, when the next one
      has begun, with an IDR frame or with operation 5. */
  lemma SequenceUntilNext(ss: seq<Slice>, b: nat, e: nat, cfg: Config)
    requires Bounded(ss, b, e, cfg) && AllTimely(ss, b, e, cfg) && e < |ss| && Begins(ss, e, cfg)
    ensures LeavesBefore(ss, b, e, cfg)
  {
    hide SameSequence, InTime, Run, Start, Marked, Count, NonDecreasing, Sorted, AllTimely, Decoded, Resets;
    var st, base := Run(ss[..e], cfg), MarkedAt(ss, b, cfg).emitted;
    RunSorted(ss, b, e, e, cfg);
    SortedIsNonDecreasing(st, base);
    FirstIsDecoded(ss, e, cfg);
    IdrIsNoReset(ss[e]);
    if ss[e].idr && ss[e].noOutputOfPriorPics {
      DeliveredStays(st, ss[e], cfg);
    } else {
      FlushSorted(st, ss[e], cfg, base);
      SortedIsNonDecreasing(MarkedAt(ss, e, cfg), base);
      if Decoded(ss, b, e, cfg) {
        forall c
          ensures Count(MarkedAt(ss, e, cfg).emitted[|base|..], PocIs(c)) == Count(ss[b..e], SliceIs(c))
        {
          FlushedComplete(ss, b, e, cfg, c);
        }
      }
    }
  }

  lemma IdrIsNoReset(s: Slice)
    ensures Resets(s) ==> !s.idr
  {
  }

  lemma DeliveredStays(st: State, s: Slice, cfg: Config)
    requires ValidNumbers(st, s, cfg) && s.idr && s.frameNum == 0 && s.noOutputOfPriorPics
    ensures Start(st, s, cfg).ok && Marked(Start(st, s, cfg).st, s, cfg).emitted == Delivered(st)
  {
    hide Start, Marked, Resets;
    IdrFindsNoGap(st, s, cfg);
    PocIsStable(0);
    IdrDiscards(st, s, cfg, PocIs(0));
    IdrMarksNothing(Start(st, s, cfg).st, s, cfg);
  }
}
