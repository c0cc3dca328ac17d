/** The H.264 decoding loop on values, for sequences of frames: gaps in frame_num, marking, bumping, storage and
    delayed output, one slice at a time and over runs. Class `H264Decoder.Decoder` is proved to follow it. */
module H264Machine {
  import opened Seqs
  import opened H264DpbSpec

  /** What stays fixed over a sequence. `delay` is the subclass's preferred output delay; `liveBump` asks for an
      extra round of bumping after each frame. */
  datatype Config = Config(limits: Limits, numRefFrames: nat, maxFrameNum: int, gapsAllowed: bool,
                           mode: BumpMode, liveBump: bool, delay: nat)

  /** One coded frame as the slice header describes it; gapPoc is the order count that inferred frames get. */
  datatype Slice = Slice(id: nat, poc: int, frameNum: int, isRef: bool, idr: bool, longTermReference: bool,
                         noOutputOfPriorPics: bool, adaptive: bool, ops: seq<Mmco>, gapPoc: int)

  /** `emitted` lists the frames output, the last `pending` of which are still queued; `finished` the frames
      finished in decoding order; `discarded` those thrown away unseen. */
  datatype State = State(pics: seq<Pic>, lastPoc: int, lastNonRef: bool, emitted: seq<Pic>, pending: nat,
                         finished: seq<Pic>, discarded: seq<Pic>, maxLongTermFrameIdx: int, prevRefFrameNum: int)

  const Initial := State([], MININT32, false, [], 0, [], [], 0, 0)

  function MaxRefs(cfg: Config): nat { if cfg.numRefFrames < 1 then 1 else cfg.numRefFrames }

  /** A frame is output: it joins the queue, and the queue is drained down to the delay. */
  function Emit(st: State, p: Pic, cfg: Config): State {
    st.(emitted := st.emitted + [p], pending := if st.pending < cfg.delay then st.pending + 1 else cfg.delay,
        lastPoc := p.poc, lastNonRef := !p.refPic)
  }

  function BumpOnce(st: State, drain: bool, cfg: Config): (r: State)
    requires Lowest(st.pics) >= 0
    ensures Count(r.pics, Waiting) == Count(st.pics, Waiting) - 1
  {
    OutputCountOfLowest(st.pics, drain);
    var i := Lowest(st.pics);
    Emit(st.(pics := Output(st.pics, i, drain)), st.pics[i].(needed := false), cfg)
  }

  function BumpWhile(st: State, toInsert: Option<Pic>, mode: BumpMode, cfg: Config): State
    decreases Count(st.pics, Waiting)
  {
    if NeedsBump(st.pics, cfg.limits, st.lastPoc, st.lastNonRef, toInsert, mode) && Lowest(st.pics) >= 0
    then BumpWhile(BumpOnce(st, false, cfg), toInsert, mode, cfg)
    else st
  }

  function BumpAll(st: State, cfg: Config): State
    decreases Count(st.pics, Waiting)
  {
    if Lowest(st.pics) >= 0 then BumpAll(BumpOnce(st, true, cfg), cfg) else st
  }

  lemma BumpWhileUnfolds(st: State, toInsert: Option<Pic>, mode: BumpMode, cfg: Config)
    ensures BumpWhile(st, toInsert, mode, cfg)
         == if NeedsBump(st.pics, cfg.limits, st.lastPoc, st.lastNonRef, toInsert, mode) && Lowest(st.pics) >= 0
            then BumpWhile(BumpOnce(st, false, cfg), toInsert, mode, cfg) else st
  {
  }

  lemma BumpAllUnfolds(st: State, cfg: Config)
    ensures BumpAll(st, cfg) == if Lowest(st.pics) >= 0 then BumpAll(BumpOnce(st, true, cfg), cfg) else st
  {
  }

  /** The buffer is emptied and forgets what it output last. */
  function Emptied(st: State): State {
    st.(pics := [], lastPoc := MININT32, lastNonRef := false)
  }

  /** Everything waiting is output, everything queued delivered. */
  function Drain(st: State, cfg: Config): State {
    Emptied(BumpAll(st, cfg).(pending := 0))
  }

  /** Everything stored leaves unseen, in output order, and so does what is queued. */
  function Clear(st: State, cfg: Config): State
    requires st.pending <= |st.emitted|
  {
    var k := |st.emitted| - st.pending;
    Emptied(st.(emitted := st.emitted[..k], pending := 0,
                discarded := st.discarded + st.emitted[k..] + BumpAll(st.(emitted := []), cfg).emitted))
  }

  /** The frame is stored. Order count zero marks a new start of the output order. */
  function Store(st: State, p: Pic): State {
    st.(pics := st.pics + [Stored(p)],
        lastPoc := if p.poc == 0 then MININT32 else st.lastPoc,
        lastNonRef := if p.poc == 0 then false else st.lastNonRef)
  }

  // ---- Gaps in frame_num ------------------------------------------------------------------------------

  function GapFrame(frameNum: int, poc: int): Pic {
    Pic(0, poc, frameNum, 0, frameNum, 0, 0, ShortTerm, true, false, true)
  }

  datatype Gapped = Gapped(st: State, ok: bool)

  /** One inferred frame: renumber, slide, remove, bump, store. */
  function GapStep(st: State, n: int, poc: int, cfg: Config): Gapped {
    var slid := Slide(Map(st.pics, Renumber(n, cfg.maxFrameNum)), MaxRefs(cfg));
    if !slid.ok then Gapped(st.(pics := slid.pics), false)
    else
      var cleaned := st.(pics := DeleteUnused(slid.pics));
      Gapped(Store(BumpWhile(cleaned, Some(GapFrame(n, poc)), NormalLatency, cfg), GapFrame(n, poc)), true)
  }

  /** Steps from one frame number forward to another, around the wrap. */
  function Ahead(from: int, to: int, max: int): int {
    if from <= to then to - from else to - from + max
  }

  function Next(n: int, max: int): (r: int)
    requires 0 <= n < max
    ensures 0 <= r < max && r == if n + 1 == max then 0 else n + 1
  {
    (n + 1) % max
  }

  function GapLoop(st: State, n: int, target: int, poc: int, cfg: Config): Gapped
    requires cfg.maxFrameNum > 0 && 0 <= n < cfg.maxFrameNum && 0 <= target < cfg.maxFrameNum
    decreases Ahead(n, target, cfg.maxFrameNum)
  {
    if n == target then Gapped(st, true)
    else
      var g := GapStep(st, n, poc, cfg);
      if g.ok then GapLoop(g.st, Next(n, cfg.maxFrameNum), target, poc, cfg) else g
  }

  lemma GapLoopUnfolds(st: State, n: int, target: int, poc: int, cfg: Config)
    requires 0 <= n < cfg.maxFrameNum && 0 <= target < cfg.maxFrameNum
    ensures n == target ==> GapLoop(st, n, target, poc, cfg) == Gapped(st, true)
    ensures n != target ==>
              var g, m := GapStep(st, n, poc, cfg), Next(n, cfg.maxFrameNum);
              && (g.ok ==> GapLoop(st, n, target, poc, cfg) == GapLoop(g.st, m, target, poc, cfg))
              && (!g.ok ==> GapLoop(st, n, target, poc, cfg) == g)
  {
    hide GapStep;
  }

  predicate Sound(st: State, cfg: Config) {
    && 0 <= st.prevRefFrameNum < cfg.maxFrameNum
    && st.pending <= |st.emitted|
  }

  predicate ValidNumbers(st: State, s: Slice, cfg: Config) {
    Sound(st, cfg) && 0 <= s.frameNum < cfg.maxFrameNum
  }

  /** A gap is filled only where the stream allows gaps, and only behind a stored frame. */
  predicate IsGap(st: State, s: Slice, cfg: Config)
    requires ValidNumbers(st, s, cfg)
  {
    && st.prevRefFrameNum != s.frameNum
    && Next(st.prevRefFrameNum, cfg.maxFrameNum) != s.frameNum
    && st.pics != []
    && cfg.gapsAllowed
  }

  lemma {:induction false} GapLoopPending(st: State, n: int, target: int, poc: int, cfg: Config)
    requires cfg.maxFrameNum > 0 && 0 <= n < cfg.maxFrameNum && 0 <= target < cfg.maxFrameNum
    requires st.pending <= |st.emitted|
    ensures var g := GapLoop(st, n, target, poc, cfg);
            && g.st.pending <= |g.st.emitted| && g.st.prevRefFrameNum == st.prevRefFrameNum
            && g.st.finished == st.finished && g.st.discarded == st.discarded
            && g.st.maxLongTermFrameIdx == st.maxLongTermFrameIdx
    decreases Ahead(n, target, cfg.maxFrameNum)
  {
    if n != target {
      var slid := Slide(Map(st.pics, Renumber(n, cfg.maxFrameNum)), MaxRefs(cfg));
      BumpWhilePending(st.(pics := DeleteUnused(slid.pics)), Some(GapFrame(n, poc)), NormalLatency, cfg);
      var g := GapStep(st, n, poc, cfg);
      if g.ok {
        GapLoopPending(g.st, Next(n, cfg.maxFrameNum), target, poc, cfg);
      }
    }
  }

  lemma {:induction false} BumpWhilePending(st: State, toInsert: Option<Pic>, mode: BumpMode, cfg: Config)
    requires st.pending <= |st.emitted|
    ensures var r := BumpWhile(st, toInsert, mode, cfg);
            && r.pending <= |r.emitted| && st.emitted <= r.emitted && r.finished == st.finished
            && r.discarded == st.discarded && r.maxLongTermFrameIdx == st.maxLongTermFrameIdx
            && r.prevRefFrameNum == st.prevRefFrameNum
    decreases Count(st.pics, Waiting)
  {
    if NeedsBump(st.pics, cfg.limits, st.lastPoc, st.lastNonRef, toInsert, mode) && Lowest(st.pics) >= 0 {
      BumpWhilePending(BumpOnce(st, false, cfg), toInsert, mode, cfg);
    }
  }

  function HandleGap(st: State, s: Slice, cfg: Config): (g: Gapped)
    requires ValidNumbers(st, s, cfg)
    ensures g.st.pending <= |g.st.emitted| && g.st.prevRefFrameNum == st.prevRefFrameNum
    ensures g.st.finished == st.finished && g.st.discarded == st.discarded
    ensures g.st.maxLongTermFrameIdx == st.maxLongTermFrameIdx
  {
    if IsGap(st, s, cfg) then
      var first := Next(st.prevRefFrameNum, cfg.maxFrameNum);
      GapLoopPending(st, first, s.frameNum, s.gapPoc, cfg);
      GapLoop(st, first, s.frameNum, s.gapPoc, cfg)
    else Gapped(st, true)
  }

  // ---- One slice ------------------------------------------------------------------------------------------

  /** Before decoding: frame_num gaps, the flush at an IDR frame, and the picture numbers. */
  function Start(st: State, s: Slice, cfg: Config): Gapped
    requires ValidNumbers(st, s, cfg)
  {
    var st0 := if s.idr then st.(prevRefFrameNum := 0) else st;
    var g := HandleGap(st0, s, cfg);
    if !g.ok then g
    else
      var flushed := if !s.idr then g.st else if s.noOutputOfPriorPics then Clear(g.st, cfg) else Drain(g.st, cfg);
      Gapped(flushed.(pics := Map(flushed.pics, Renumber(s.frameNum, cfg.maxFrameNum))), true)
  }

  function NewPic(s: Slice): Pic {
    Pic(s.id, s.poc, s.frameNum, 0, s.frameNum, 0, 0, if s.isRef then ShortTerm else Unused, s.isRef, false, false)
  }

  /** 8.2.5.1, for a reference frame. */
  function MarkReferences(pics: seq<Pic>, maxIdx: int, s: Slice, cfg: Config): (r: Marking)
    ensures |r.pics| == |pics|
  {
    var cur := NewPic(s);
    if s.idr then
      if s.longTermReference then Marking(Map(pics, Unmark), MakeLong(0)(cur), false, 0)
      else Marking(Map(pics, Unmark), cur.(ref := ShortTerm, refPic := true), false, -1)
    else if s.adaptive then
      var ops := Effective(s.ops);
      ApplyTo(Marking(pics, cur, false, maxIdx), ops, |ops|)
    else Marking(Slide(pics, MaxRefs(cfg)).pics, cur, false, maxIdx)
  }

  function MarkedState(st: State, s: Slice, cfg: Config): Marking {
    if s.isRef then MarkReferences(st.pics, st.maxLongTermFrameIdx, s, cfg)
    else Marking(st.pics, NewPic(s), false, st.maxLongTermFrameIdx)
  }

  /** The state after marking and removal; the frame counts as finished. */
  function Marked(st: State, s: Slice, cfg: Config): State {
    var m := MarkedState(st, s, cfg);
    var t := st.(pics := DeleteUnused(m.pics), maxLongTermFrameIdx := m.maxLongTermFrameIdx,
                 prevRefFrameNum := if s.isRef then m.cur.frameNum else st.prevRefFrameNum,
                 finished := st.finished + [m.cur]);
    if m.memMgmt5 then Drain(t, cfg) else t
  }

  function CurrentPic(st: State, s: Slice, cfg: Config): Pic { MarkedState(st, s, cfg).cur }

  /** C.4.5.1 and C.4.5.2: bump, then store a reference or a frame that fits, or output the frame directly. */
  function Insert(st: State, cur: Pic, cfg: Config): State {
    var b := BumpWhile(st, Some(cur), cfg.mode, cfg);
    if cur.ref != Unused || HasEmpty(b.pics, cfg.limits) then Store(b, cur) else Emit(b, cur, cfg)
  }

  function Finish(st: State, s: Slice, cfg: Config): State {
    var t := Insert(Marked(st, s, cfg), CurrentPic(st, s, cfg), cfg);
    if cfg.liveBump then BumpWhile(t, None, cfg.mode, cfg) else t
  }

  /** A frame whose gap cannot be filled is dropped. */
  function Step(st: State, s: Slice, cfg: Config): State
    requires ValidNumbers(st, s, cfg)
  {
    var g := Start(st, s, cfg);
    if g.ok then Finish(g.st, s, cfg) else g.st
  }

  predicate Numbered(ss: seq<Slice>, cfg: Config) {
    && cfg.maxFrameNum > 0
    && forall i :: 0 <= i < |ss| ==> 0 <= ss[i].frameNum < cfg.maxFrameNum
  }

  /** What marking leaves of the current frame: its identity, and that it is a reference. */
  predicate SameCurrent(a: Pic, b: Pic) {
    && b.id == a.id && b.nonexisting == a.nonexisting && b.needed == a.needed
    && b.frameNum in {a.frameNum, 0} && (IsRef(a) && a.refPic ==> IsRef(b) && b.refPic)
  }

  lemma ApplyKeepsCurrent(m: Marking, c: Mmco)
    ensures SameCurrent(m.cur, ApplyMmco(m, c).cur)
  {
    hide FreeIdx, Find, Map;
  }

  lemma {:induction false} ApplyToKeepsCurrent(m: Marking, ops: seq<Mmco>, n: nat)
    requires n <= |ops|
    ensures SameCurrent(m.cur, ApplyTo(m, ops, n).cur)
  {
    hide ApplyMmco, FreeIdx, Find;
    if n > 0 {
      ApplyToKeepsCurrent(m, ops, n - 1);
      ApplyKeepsCurrent(ApplyTo(m, ops, n - 1), ops[n - 1]);
    }
  }

  lemma CurrentKeeps(st: State, s: Slice, cfg: Config)
    ensures var c := CurrentPic(st, s, cfg);
            && c.id == s.id && !c.nonexisting && !c.needed && c.frameNum in {s.frameNum, 0}
            && IsRef(c) == s.isRef && c.refPic == s.isRef
  {
    if s.isRef && !s.idr && s.adaptive {
      var ops := Effective(s.ops);
      ApplyToKeepsCurrent(Marking(st.pics, NewPic(s), false, st.maxLongTermFrameIdx), ops, |ops|);
    }
  }

  /** Whether operation 5 is among the first n. */
  predicate ResetsTo(ops: seq<Mmco>, n: nat)
    requires n <= |ops|
  {
    n > 0 && (ResetsTo(ops, n - 1) || ops[n - 1].op == 5)
  }

  /** The frame carries out operation 5, which starts its numbers and the output order over. */
  predicate Resets(s: Slice) {
    s.isRef && !s.idr && s.adaptive && ResetsTo(Effective(s.ops), |Effective(s.ops)|)
  }

  /** The order count and frame number that the frame ends up with. */
  function FinalPoc(s: Slice): int { if Resets(s) then 0 else s.poc }

  function FinalNum(s: Slice): int { if Resets(s) then 0 else s.frameNum }

  lemma {:induction false} ApplyToResets(m: Marking, ops: seq<Mmco>, n: nat)
    requires n <= |ops| && !m.memMgmt5
    ensures var r := ApplyTo(m, ops, n);
            && r.memMgmt5 == ResetsTo(ops, n)
            && r.cur.poc == (if ResetsTo(ops, n) then 0 else m.cur.poc)
            && r.cur.frameNum == (if ResetsTo(ops, n) then 0 else m.cur.frameNum)
  {
    hide FreeIdx, Find;
    if n > 0 {
      ApplyToResets(m, ops, n - 1);
    }
  }

  lemma CurrentNumbers(st: State, s: Slice, cfg: Config)
    ensures CurrentPic(st, s, cfg).poc == FinalPoc(s) && CurrentPic(st, s, cfg).frameNum == FinalNum(s)
    ensures MarkedState(st, s, cfg).memMgmt5 == Resets(s)
  {
    var ops := Effective(s.ops);
    ApplyToResets(Marking(st.pics, NewPic(s), false, st.maxLongTermFrameIdx), ops, |ops|);
  }

  lemma {:induction false} BumpAllPending(st: State, cfg: Config)
    requires st.pending <= |st.emitted|
    ensures var r := BumpAll(st, cfg);
            && r.pending <= |r.emitted| && st.emitted <= r.emitted && r.finished == st.finished
            && r.discarded == st.discarded && r.maxLongTermFrameIdx == st.maxLongTermFrameIdx
            && r.prevRefFrameNum == st.prevRefFrameNum
    decreases Count(st.pics, Waiting)
  {
    if Lowest(st.pics) >= 0 {
      BumpAllPending(BumpOnce(st, true, cfg), cfg);
    }
  }

  lemma StartSound(st: State, s: Slice, cfg: Config)
    requires ValidNumbers(st, s, cfg)
    ensures Sound(Start(st, s, cfg).st, cfg)
    ensures Start(st, s, cfg).st.finished == st.finished
    ensures Start(st, s, cfg).st.maxLongTermFrameIdx == st.maxLongTermFrameIdx
    ensures Start(st, s, cfg).st.prevRefFrameNum == if s.idr then 0 else st.prevRefFrameNum
  {
    var st0 := if s.idr then st.(prevRefFrameNum := 0) else st;
    var g := HandleGap(st0, s, cfg);
    BumpAllPending(g.st, cfg);
  }

  lemma MarkedSound(st: State, s: Slice, cfg: Config)
    requires ValidNumbers(st, s, cfg)
    ensures Sound(Marked(st, s, cfg), cfg)
    ensures Marked(st, s, cfg).finished == st.finished + [CurrentPic(st, s, cfg)]
    ensures Marked(st, s, cfg).maxLongTermFrameIdx == MarkedState(st, s, cfg).maxLongTermFrameIdx
    ensures Marked(st, s, cfg).prevRefFrameNum
         == if s.isRef then CurrentPic(st, s, cfg).frameNum else st.prevRefFrameNum
  {
    hide MarkedState, BumpAll, Filter;
    CurrentKeeps(st, s, cfg);
    var m := MarkedState(st, s, cfg);
    var t := st.(pics := DeleteUnused(m.pics), maxLongTermFrameIdx := m.maxLongTermFrameIdx,
                 prevRefFrameNum := if s.isRef then m.cur.frameNum else st.prevRefFrameNum,
                 finished := st.finished + [m.cur]);
    BumpAllPending(t, cfg);
  }

  lemma InsertSound(st: State, cur: Pic, cfg: Config)
    requires Sound(st, cfg)
    ensures var r := Insert(st, cur, cfg);
            && Sound(r, cfg) && r.finished == st.finished && r.maxLongTermFrameIdx == st.maxLongTermFrameIdx
            && r.prevRefFrameNum == st.prevRefFrameNum
  {
    hide BumpWhile;
    BumpWhilePending(st, Some(cur), cfg.mode, cfg);
  }

  lemma FinishSound(st: State, s: Slice, cfg: Config)
    requires ValidNumbers(st, s, cfg)
    ensures Sound(Finish(st, s, cfg), cfg)
    ensures Finish(st, s, cfg).finished == st.finished + [CurrentPic(st, s, cfg)]
    ensures Finish(st, s, cfg).maxLongTermFrameIdx == MarkedState(st, s, cfg).maxLongTermFrameIdx
    ensures Finish(st, s, cfg).prevRefFrameNum
         == if s.isRef then CurrentPic(st, s, cfg).frameNum else st.prevRefFrameNum
  {
    hide MarkedState, Marked, BumpWhile, Insert;
    var cur := CurrentPic(st, s, cfg);
    MarkedSound(st, s, cfg);
    InsertSound(Marked(st, s, cfg), cur, cfg);
    BumpWhilePending(Insert(Marked(st, s, cfg), cur, cfg), None, cfg.mode, cfg);
  }

  lemma StepSound(st: State, s: Slice, cfg: Config)
    requires ValidNumbers(st, s, cfg)
    ensures Sound(Step(st, s, cfg), cfg)
  {
    hide Start, Finish;
    StartSound(st, s, cfg);
    FinishSound(Start(st, s, cfg).st, s, cfg);
  }

  /** A run from a new decoder. */
  function Run(ss: seq<Slice>, cfg: Config): (r: State)
    requires Numbered(ss, cfg)
    ensures Sound(r, cfg)
  {
    if ss == [] then Initial
    else
      var before := Run(ss[..|ss| - 1], cfg);
      StepSound(before, ss[|ss| - 1], cfg);
      Step(before, ss[|ss| - 1], cfg)
  }
}
