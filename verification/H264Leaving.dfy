/** When a frame leaves the buffer, case by case; what the decoder remembers of the last one that did; and how long a
    frame that has left stays queued. */
module H264Leaving {
  import opened Seqs
  import opened Modulo
  import opened H264DpbSpec
  import opened H264Machine
  import opened H264Run
  import opened H264Reorder
  import opened H264Order

  // ---- The decision -------------------------------------------------------------------------------------------

  /** The frame at i waits and is first in output order, and first in the list among those of its order count. */
  predicate First(pics: seq<Pic>, i: nat) {
    && i < |pics| && pics[i].needed
    && (forall k :: 0 <= k < |pics| && pics[k].needed ==> pics[i].poc <= pics[k].poc)
    && (forall k :: 0 <= k < i && pics[k].needed ==> pics[i].poc < pics[k].poc)
  }

  predicate Arrives(toInsert: Option<Pic>, refPic: bool, after: int) {
    toInsert.Some? && toInsert.value.refPic == refPic && toInsert.value.poc > after
  }

  predicate ArrivesAfter(toInsert: Option<Pic>, after: int) {
    Arrives(toInsert, true, after) || Arrives(toInsert, false, after)
  }

  /** The only stored frame, with order count zero: what precedes it may still come. */
  predicate OpensSequence(pics: seq<Pic>, i: nat) { i < |pics| && pics[i].poc == 0 && |pics| == 1 }

  /** With room in the buffer, in a low latency mode, by the kind of the frame that is first in output order. Any frame
      leaves when as many waiting frames are stored before it as may be reordered. Otherwise a non-reference frame
      leaves at once, or, when it opens a sequence, with a positive count behind it or a non-reference frame output
      before it. A reference frame that opens a sequence leaves when a positive count arrives; one of negative count
      too. Any other waits for a later non-reference frame or, in the very low latency mode, leaves when its count is
      the next one. */
  lemma LeavesEarlyIff(st: State, i: nat, toInsert: Option<Pic>, mode: BumpMode, lim: Limits)
    requires First(st.pics, i) && HasEmpty(st.pics, lim)
    ensures NeedsBump(st.pics, lim, st.lastPoc, st.lastNonRef, toInsert, mode)
       <==> mode != NormalLatency &&
            var p := st.pics[i];
            || CountTo(st.pics, i, Waiting) >= lim.maxNumReorderFrames
            || if !p.refPic then !OpensSequence(st.pics, i) || st.lastNonRef || ArrivesAfter(toInsert, 0)
               else if OpensSequence(st.pics, i) then ArrivesAfter(toInsert, 0)
               else
                 || (p.poc < 0 && ArrivesAfter(toInsert, 0))
                 || Arrives(toInsert, false, p.poc)
                 || (mode == VeryLowLatency && NextCount(p.poc, st.lastPoc))
  {
    assert Lowest(st.pics) == i;
  }

  /** In a full buffer, in any mode: the frame that is first in output order leaves exactly when a reference frame
      arrives, or a non-reference frame that follows it. */
  lemma LeavesFullIff(st: State, i: nat, toInsert: Option<Pic>, mode: BumpMode, lim: Limits)
    requires First(st.pics, i) && !HasEmpty(st.pics, lim)
    ensures NeedsBump(st.pics, lim, st.lastPoc, st.lastNonRef, toInsert, mode)
       <==> toInsert.Some? && (toInsert.value.refPic || Arrives(toInsert, false, st.pics[i].poc))
  {
    assert Lowest(st.pics) == i;
  }

  /** A round for a non-reference frame in the normal mode outputs only frames before it. */
  lemma {:induction false} RoundOutputsBefore(st: State, cur: Pic, cfg: Config)
    requires !cur.refPic
    ensures var r := BumpWhile(st, Some(cur), NormalLatency, cfg);
            && st.emitted <= r.emitted
            && forall k :: |st.emitted| <= k < |r.emitted| ==> r.emitted[k].poc < cur.poc
    decreases Count(st.pics, Waiting)
  {
    BumpWhileUnfolds(st, Some(cur), NormalLatency, cfg);
    if NeedsBump(st.pics, cfg.limits, st.lastPoc, st.lastNonRef, Some(cur), NormalLatency) && Lowest(st.pics) >= 0 {
      RoundOutputsBefore(BumpOnce(st, false, cfg), cur, cfg);
    }
  }

  // ---- What is remembered ---------------------------------------------------------------------------------------

  predicate Forgotten(st: State) { st.lastPoc == MININT32 && !st.lastNonRef }

  /** The order count of the frame output last, and that it was no reference; or nothing. */
  predicate Remembers(st: State) {
    || Forgotten(st)
    || (st.emitted != [] && st.lastPoc == Last(st).poc && st.lastNonRef == !Last(st).refPic)
  }

  lemma {:induction false} BumpWhileRemembers(st: State, toInsert: Option<Pic>, mode: BumpMode, cfg: Config)
    requires Remembers(st)
    ensures Remembers(BumpWhile(st, toInsert, mode, cfg))
    decreases Count(st.pics, Waiting)
  {
    hide NeedsBump;
    if NeedsBump(st.pics, cfg.limits, st.lastPoc, st.lastNonRef, toInsert, mode) && Lowest(st.pics) >= 0 {
      BumpWhileRemembers(BumpOnce(st, false, cfg), toInsert, mode, cfg);
    }
  }

  lemma {:induction false} GapLoopRemembers(st: State, n: int, target: int, poc: int, cfg: Config)
    requires 0 <= n < cfg.maxFrameNum && 0 <= target < cfg.maxFrameNum && Remembers(st)
    ensures Remembers(GapLoop(st, n, target, poc, cfg).st)
    decreases Ahead(n, target, cfg.maxFrameNum)
  {
    hide BumpWhile, Slide, Filter;
    if n != target {
      var slid := Slide(Map(st.pics, Renumber(n, cfg.maxFrameNum)), MaxRefs(cfg));
      BumpWhileRemembers(st.(pics := DeleteUnused(slid.pics)), Some(GapFrame(n, poc)), NormalLatency, cfg);
      var g := GapStep(st, n, poc, cfg);
      if g.ok {
        GapLoopRemembers(g.st, Next(n, cfg.maxFrameNum), target, poc, cfg);
      }
    }
  }

  /** An IDR frame starts the output order over: nothing is remembered. */
  lemma StartRemembers(st: State, s: Slice, cfg: Config)
    requires ValidNumbers(st, s, cfg) && Remembers(st)
    ensures Remembers(Start(st, s, cfg).st)
    ensures s.idr && Start(st, s, cfg).ok ==> Forgotten(Start(st, s, cfg).st)
  {
    hide GapLoop, BumpAll;
    var st0 := if s.idr then st.(prevRefFrameNum := 0) else st;
    if IsGap(st0, s, cfg) {
      GapLoopRemembers(st0, Next(st0.prevRefFrameNum, cfg.maxFrameNum), s.frameNum, s.gapPoc, cfg);
    }
  }

  /** And so does operation 5. */
  lemma MarkedRemembers(st: State, s: Slice, cfg: Config)
    requires Remembers(st)
    ensures Remembers(Marked(st, s, cfg)) && (Resets(s) ==> Forgotten(Marked(st, s, cfg)))
  {
    hide MarkedState, BumpAll, Filter;
    CurrentNumbers(st, s, cfg);
  }

  /** And a frame of count zero when it is stored. */
  lemma InsertRemembers(t: State, cur: Pic, cfg: Config)
    requires Remembers(t)
    ensures Remembers(Insert(t, cur, cfg))
    ensures cur.ref != Unused && cur.poc == 0 ==> Forgotten(Insert(t, cur, cfg))
    ensures cur.ref != Unused && cur.poc != 0 ==>
              var b, r := BumpWhile(t, Some(cur), cfg.mode, cfg), Insert(t, cur, cfg);
              r.lastPoc == b.lastPoc && r.lastNonRef == b.lastNonRef
  {
    hide BumpWhile;
    BumpWhileRemembers(t, Some(cur), cfg.mode, cfg);
  }

  /** Over every run. */
  lemma {:induction false} RunRemembers(ss: seq<Slice>, cfg: Config)
    requires Numbered(ss, cfg)
    ensures Remembers(Run(ss, cfg))
  {
    hide Start, Marked, Insert, BumpWhile, CurrentPic, Remembers;
    if ss == [] {
      NothingRemembered();
    } else {
      var before, s := ss[..|ss| - 1], ss[|ss| - 1];
      RunRemembers(before, cfg);
      StartRemembers(Run(before, cfg), s, cfg);
      var g := Start(Run(before, cfg), s, cfg);
      if g.ok {
        var cur, t := CurrentPic(g.st, s, cfg), Marked(g.st, s, cfg);
        MarkedRemembers(g.st, s, cfg);
        InsertRemembers(t, cur, cfg);
        BumpWhileRemembers(Insert(t, cur, cfg), None, cfg.mode, cfg);
      }
    }
  }

  lemma NothingRemembered()
    ensures Remembers(Initial)
  {
  }

  // ---- The queue --------------------------------------------------------------------------------------------------

  /** Since base was out, everything output is queued until as many frames as the delay have been output behind it. */
  predicate Queues(st: State, base: seq<Pic>, cfg: Config) {
    base <= st.emitted && st.pending == Min(cfg.delay, |st.emitted| - |base|)
  }

  lemma {:induction false} BumpWhileQueues(st: State, toInsert: Option<Pic>, mode: BumpMode, cfg: Config,
                                           base: seq<Pic>)
    requires Queues(st, base, cfg)
    ensures Queues(BumpWhile(st, toInsert, mode, cfg), base, cfg)
    decreases Count(st.pics, Waiting)
  {
    hide NeedsBump;
    if NeedsBump(st.pics, cfg.limits, st.lastPoc, st.lastNonRef, toInsert, mode) && Lowest(st.pics) >= 0 {
      BumpWhileQueues(BumpOnce(st, false, cfg), toInsert, mode, cfg, base);
    }
  }

  lemma {:induction false} GapLoopQueues(st: State, n: int, target: int, poc: int, cfg: Config, base: seq<Pic>)
    requires 0 <= n < cfg.maxFrameNum && 0 <= target < cfg.maxFrameNum && Queues(st, base, cfg)
    ensures Queues(GapLoop(st, n, target, poc, cfg).st, base, cfg)
    decreases Ahead(n, target, cfg.maxFrameNum)
  {
    hide BumpWhile, Slide, Filter;
    if n != target {
      var slid := Slide(Map(st.pics, Renumber(n, cfg.maxFrameNum)), MaxRefs(cfg));
      BumpWhileQueues(st.(pics := DeleteUnused(slid.pics)), Some(GapFrame(n, poc)), NormalLatency, cfg, base);
      var g := GapStep(st, n, poc, cfg);
      if g.ok {
        GapLoopQueues(g.st, Next(n, cfg.maxFrameNum), target, poc, cfg, base);
      }
    }
  }

  lemma StartQueues(st: State, s: Slice, cfg: Config, base: seq<Pic>)
    requires ValidNumbers(st, s, cfg) && !s.idr && Queues(st, base, cfg)
    ensures Queues(Start(st, s, cfg).st, base, cfg)
  {
    hide GapLoop, BumpAll;
    if IsGap(st, s, cfg) {
      GapLoopQueues(st, Next(st.prevRefFrameNum, cfg.maxFrameNum), s.frameNum, s.gapPoc, cfg, base);
    }
  }

  lemma MarkedQueues(st: State, s: Slice, cfg: Config, base: seq<Pic>)
    requires Queues(st, base, cfg) && !Resets(s)
    ensures Queues(Marked(st, s, cfg), base, cfg)
  {
    hide MarkedState, BumpAll, Filter, Resets;
    CurrentNumbers(st, s, cfg);
  }

  lemma SteppedQueues(t: State, cur: Pic, cfg: Config, base: seq<Pic>)
    requires Queues(t, base, cfg)
    ensures Queues(Stepped(t, cur, cfg), base, cfg)
  {
    hide BumpWhile;
    BumpWhileQueues(t, Some(cur), cfg.mode, cfg, base);
    BumpWhileQueues(Insert(t, cur, cfg), None, cfg.mode, cfg, base);
  }

  /** A sequence begins with an empty queue. */
  lemma BeginsUnqueued(ss: seq<Slice>, b: nat, cfg: Config)
    requires Within(ss, b, cfg) && Begins(ss, b, cfg)
    ensures MarkedAt(ss, b, cfg).pending == 0
  {
    hide Run, Start, Marked, Resets;
    var g := StartedAt(ss, b, cfg);
    if b == 0 {
      assert ss[..0] == [] && Run(ss[..0], cfg) == Initial by { EmptyRun(cfg); }
    }
    StartUnqueues(Run(ss[..b], cfg), ss[b], cfg);
    MarkedUnqueues(g, ss[b], cfg);
  }

  lemma EmptyRun(cfg: Config)
    requires Numbered([], cfg)
    ensures Run([], cfg) == Initial
  {
  }

  lemma StartUnqueues(st: State, s: Slice, cfg: Config)
    requires ValidNumbers(st, s, cfg)
    ensures st == Initial || (s.idr && s.frameNum == 0) ==> Start(st, s, cfg).st.pending == 0
  {
    hide BumpAll;
  }

  lemma MarkedUnqueues(st: State, s: Slice, cfg: Config)
    ensures Marked(st, s, cfg).pending == if Resets(s) then 0 else st.pending
  {
    hide MarkedState, BumpAll, Filter, Resets;
    CurrentNumbers(st, s, cfg);
  }

  /** Over every coded video sequence of a run: a frame is delivered exactly when as many frames of the sequence as the
      delay have been output behind it. */
  lemma {:induction false} RunQueues(ss: seq<Slice>, b: nat, k: nat, cfg: Config)
    requires Within(ss, k, cfg) && b <= k && SameSequence(ss, b, k, cfg)
    ensures Queues(Run(ss[..k + 1], cfg), MarkedAt(ss, b, cfg).emitted, cfg)
  {
    hide Start, Marked, Run, CurrentPic, Stepped, Resets, Queues, Begins;
    var base := MarkedAt(ss, b, cfg).emitted;
    RunNext(ss, k, cfg);
    if k == b {
      FirstIsDecoded(ss, b, cfg);
      BeginsUnqueued(ss, b, cfg);
      UnqueuedQueues(MarkedAt(ss, b, cfg), cfg);
    } else {
      RunQueues(ss, b, k - 1, cfg);
      StartQueues(Run(ss[..k], cfg), ss[k], cfg, base);
      MarkedQueues(StartedAt(ss, k, cfg), ss[k], cfg, base);
    }
    if Start(Run(ss[..k], cfg), ss[k], cfg).ok {
      SteppedQueues(MarkedAt(ss, k, cfg), CurrentPic(StartedAt(ss, k, cfg), ss[k], cfg), cfg, base);
    }
  }

  lemma UnqueuedQueues(st: State, cfg: Config)
    requires st.pending == 0
    ensures Queues(st, st.emitted, cfg)
  {
  }
}
