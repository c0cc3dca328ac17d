/** What each operation of the H.264 decoded picture buffer does to its value, for sequences of frames. */
module H264DpbSpec {
  import opened Modulo
  import opened Seqs

  const MAXINT32 := 0x7fff_ffff
  const MININT32 := -0x8000_0000

  datatype RefKind = Unused | ShortTerm | LongTerm

  /** The part of a frame that the buffer looks at. `id` is the system frame number; `refPic` stays set once the
      frame has been a reference. */
  datatype Pic = Pic(id: nat, poc: int, frameNum: int, frameNumWrap: int, picNum: int,
                     longTermPicNum: int, longTermFrameIdx: int,
                     ref: RefKind, refPic: bool, needed: bool, nonexisting: bool)

  datatype Option<T> = None | Some(value: T)

  datatype BumpMode = NormalLatency | LowLatency | VeryLowLatency

  /** The buffer's limits, from the sequence parameter set. */
  datatype Limits = Limits(maxNumFrames: int, maxNumReorderFrames: nat)

  predicate Waiting(p: Pic) { p.needed }

  predicate IsRef(p: Pic) { p.ref != Unused }

  predicate IsShort(p: Pic) { p.ref == ShortTerm }

  predicate IsLong(p: Pic) { p.ref == LongTerm }

  predicate InUse(p: Pic) { p.needed || p.ref != Unused }

  function ShortWithPicNum(n: int): Pic -> bool { (p: Pic) => p.ref == ShortTerm && p.picNum == n }

  function LongWithPicNum(n: int): Pic -> bool { (p: Pic) => p.ref == LongTerm && p.longTermPicNum == n }

  function LongWithIdx(idx: int): Pic -> bool { (p: Pic) => p.ref == LongTerm && p.longTermFrameIdx == idx }

  function Unmark(p: Pic): Pic { p.(ref := Unused) }

  function MakeLong(idx: int): Pic -> Pic { (p: Pic) => p.(ref := LongTerm, refPic := true, longTermFrameIdx := idx) }

  function DeleteUnused(pics: seq<Pic>): seq<Pic> { Filter(pics, InUse) }

  predicate HasEmpty(pics: seq<Pic>, lim: Limits) { |pics| < lim.maxNumFrames }

  /** Index of the waiting frame that is first in output order among the first n, or -1. */
  function LowestTo(pics: seq<Pic>, n: nat): (i: int)
    requires n <= |pics|
    ensures -1 <= i < n
    ensures i < 0 ==> forall k :: 0 <= k < n ==> !pics[k].needed
    ensures i >= 0 ==> pics[i].needed && forall k :: 0 <= k < n && pics[k].needed ==> pics[i].poc <= pics[k].poc
    ensures i >= 0 ==> forall k :: 0 <= k < i && pics[k].needed ==> pics[i].poc < pics[k].poc
  {
    if n == 0 then -1
    else
      var r := LowestTo(pics, n - 1);
      if pics[n - 1].needed && (r < 0 || pics[n - 1].poc < pics[r].poc) then n - 1 else r
  }

  function Lowest(pics: seq<Pic>): (i: int)
    ensures -1 <= i < |pics|
    ensures i < 0 ==> forall k :: 0 <= k < |pics| ==> !pics[k].needed
    ensures i >= 0 ==> pics[i].needed && forall k :: 0 <= k < |pics| && pics[k].needed ==> pics[i].poc <= pics[k].poc
    ensures i >= 0 ==> forall k :: 0 <= k < i && pics[k].needed ==> pics[i].poc < pics[k].poc
  {
    LowestTo(pics, |pics|)
  }

  /** Index of the short-term reference with the lowest FrameNumWrap among the first n, or -1. */
  function LowestShortTo(pics: seq<Pic>, n: nat): (i: int)
    requires n <= |pics|
    ensures -1 <= i < n
    ensures i < 0 ==> forall k :: 0 <= k < n ==> pics[k].ref != ShortTerm
    ensures i >= 0 ==> pics[i].ref == ShortTerm
    ensures i >= 0 ==> forall k :: 0 <= k < n && pics[k].ref == ShortTerm ==>
                         pics[i].frameNumWrap <= pics[k].frameNumWrap
    ensures i >= 0 ==> forall k :: 0 <= k < i && pics[k].ref == ShortTerm ==>
                         pics[i].frameNumWrap < pics[k].frameNumWrap
  {
    if n == 0 then -1
    else
      var r := LowestShortTo(pics, n - 1);
      if pics[n - 1].ref == ShortTerm && (r < 0 || pics[n - 1].frameNumWrap < pics[r].frameNumWrap) then n - 1 else r
  }

  /** The frame that waits first in output order has at least as many waiting frames before it in the list as the
      stream may reorder. */
  predicate ReorderRule(pics: seq<Pic>, reorder: nat) {
    var i := Lowest(pics);
    i >= 0 && i >= reorder && CountTo(pics, i, Waiting) >= reorder
  }

  /** The first frame of a sequence, with at most itself stored: what comes before it may still arrive. */
  predicate FirstAlone(pics: seq<Pic>, low: Pic) { low.poc == 0 && |pics| <= 1 }

  /** The count follows the last output one by at most two, with the program's 32-bit subtraction. */
  predicate NextCount(poc: int, lastPoc: int) { poc > lastPoc && Wrap32(poc - lastPoc) <= 2 }

  /** What the subtraction makes of it: counts too far apart for 32 bits count as next to each other, so that every
      count from zero on does while no output is remembered. */
  lemma NextCountIff(poc: int, lastPoc: int)
    requires MININT32 <= poc <= MAXINT32 && MININT32 <= lastPoc <= MAXINT32
    ensures NextCount(poc, lastPoc) <==> lastPoc < poc <= lastPoc + 2 || poc - lastPoc > MAXINT32
    ensures poc >= 0 ==> NextCount(poc, MININT32)
  {
    Wrap32Once(poc - lastPoc);
    Wrap32Once(poc - MININT32);
  }

  /** Why the frame that is first in output order may leave a buffer with room: enough frames were reordered around
      it; the new frame shows that the frames of negative count are over, or, after the first frame of a sequence,
      follows it; or, when it is not such a first frame, it is no reference itself, or a later non-reference frame
      arrives, or its count is the next one. Two non-reference frames in a row always leave together. */
  predicate EarlyRules(pics: seq<Pic>, lim: Limits, lastPoc: int, lastNonRef: bool, toInsert: Option<Pic>,
                       mode: BumpMode)
    requires Lowest(pics) >= 0
  {
    var low := pics[Lowest(pics)];
    var alone := FirstAlone(pics, low);
    || ReorderRule(pics, lim.maxNumReorderFrames)
    || (toInsert.Some? && toInsert.value.poc > 0 && (low.poc < 0 || alone))
    || (!low.refPic && (lastNonRef || !alone))
    || (!alone && toInsert.Some? && !toInsert.value.refPic && toInsert.value.poc > low.poc)
    || (!alone && mode == VeryLowLatency && NextCount(low.poc, lastPoc))
  }

  /** C.4.5.3, on a full buffer. */
  predicate FullRules(pics: seq<Pic>, toInsert: Option<Pic>) {
    && toInsert.Some?
    && (toInsert.value.refPic
        || toInsert.value.poc > if Lowest(pics) >= 0 then pics[Lowest(pics)].poc else MAXINT32)
  }

  predicate NeedsBump(pics: seq<Pic>, lim: Limits, lastPoc: int, lastNonRef: bool, toInsert: Option<Pic>,
                      mode: BumpMode)
  {
    if HasEmpty(pics, lim)
    then mode != NormalLatency && Lowest(pics) >= 0 && EarlyRules(pics, lim, lastPoc, lastNonRef, toInsert, mode)
    else FullRules(pics, toInsert)
  }

  /** The buffer after the waiting frame at i has been output. */
  function Output(pics: seq<Pic>, i: nat, drain: bool): seq<Pic>
    requires i < |pics|
  {
    var marked := pics[i := pics[i].(needed := false)];
    if pics[i].ref == Unused || drain then RemoveAt(marked, i) else marked
  }

  function Stored(p: Pic): Pic { p.(needed := !p.nonexisting) }

  lemma OutputCount(pics: seq<Pic>, i: nat, drain: bool, p: Pic -> bool)
    requires i < |pics|
    ensures Count(Output(pics, i, drain), p)
         == Count(pics, p) - (if p(pics[i]) then 1 else 0)
            + (if pics[i].ref != Unused && !drain && p(pics[i].(needed := false)) then 1 else 0)
  {
    CountUpdate(pics, i, pics[i].(needed := false), p);
    CountRemove(pics[i := pics[i].(needed := false)], i, p);
  }

  lemma OutputCountOfLowest(pics: seq<Pic>, drain: bool)
    ensures Lowest(pics) >= 0 ==> Count(Output(pics, Lowest(pics), drain), Waiting) == Count(pics, Waiting) - 1
  {
    if Lowest(pics) >= 0 {
      OutputCount(pics, Lowest(pics), drain, Waiting);
    }
  }

  // ---- Marking ---------------------------------------------------------------------------------------

  /** 8.2.4.1: picture numbers relative to the current frame_num. */
  function Renumber(frameNum: int, maxFrameNum: int): Pic -> Pic {
    (p: Pic) =>
      match p.ref
      case Unused => p
      case LongTerm => p.(longTermPicNum := p.longTermFrameIdx)
      case ShortTerm =>
        var w := if p.frameNum > frameNum then p.frameNum - maxFrameNum else p.frameNum;
        p.(frameNumWrap := w, picNum := w)
  }

  datatype Slid = Slid(pics: seq<Pic>, ok: bool)

  lemma UnmarkCount(pics: seq<Pic>, i: nat)
    requires i < |pics| && IsRef(pics[i])
    ensures Count(pics[i := Unmark(pics[i])], IsRef) == Count(pics, IsRef) - 1
  {
    CountUpdate(pics, i, Unmark(pics[i]), IsRef);
  }

  /** 8.2.5.3: short-term references leave, lowest FrameNumWrap first, until fewer than max references remain. */
  function Slide(pics: seq<Pic>, max: nat): (r: Slid)
    ensures |r.pics| == |pics|
    decreases Count(pics, IsRef)
  {
    var i := LowestShortTo(pics, |pics|);
    if Count(pics, IsRef) < max then Slid(pics, true)
    else if i < 0 then Slid(pics, false)
    else
      UnmarkCount(pics, i);
      Slide(pics[i := Unmark(pics[i])], max)
  }

  lemma SlideUnfolds(pics: seq<Pic>, max: nat)
    ensures var i := LowestShortTo(pics, |pics|);
            Slide(pics, max) == if Count(pics, IsRef) < max then Slid(pics, true)
                                else if i < 0 then Slid(pics, false)
                                else Slide(pics[i := Unmark(pics[i])], max)
  {
  }

  /** One memory management control operation. */
  datatype Mmco = Mmco(op: nat, differenceOfPicNumsMinus1: nat, longTermPicNum: int, longTermFrameIdx: int,
                       maxLongTermFrameIdxPlus1: nat)

  /** The buffer, the current frame, and the largest long-term index in force. */
  datatype Marking = Marking(pics: seq<Pic>, cur: Pic, memMgmt5: bool, maxLongTermFrameIdx: int)

  function UnmarkAbove(idx: int): Pic -> Pic {
    (p: Pic) => if p.ref == LongTerm && p.longTermFrameIdx > idx then Unmark(p) else p
  }

  /** The first long-term reference with this index, if any, loses its mark. */
  function FreeIdx(pics: seq<Pic>, idx: int): (r: seq<Pic>)
    ensures |r| == |pics|
  {
    var j := Find(pics, LongWithIdx(idx));
    if j < 0 then pics else pics[j := Unmark(pics[j])]
  }

  /** 8.2.5.4. An operation that finds no picture does nothing. */
  function ApplyMmco(m: Marking, c: Mmco): (r: Marking)
    ensures |r.pics| == |m.pics|
  {
    match c.op
    case 1 =>
      var i := Find(m.pics, ShortWithPicNum(m.cur.picNum - (c.differenceOfPicNumsMinus1 + 1)));
      if i < 0 then m else m.(pics := m.pics[i := Unmark(m.pics[i])])
    case 2 =>
      var i := Find(m.pics, LongWithPicNum(c.longTermPicNum));
      if i < 0 then m else m.(pics := m.pics[i := Unmark(m.pics[i])])
    case 3 =>
      var i := Find(m.pics, ShortWithPicNum(m.cur.picNum - (c.differenceOfPicNumsMinus1 + 1)));
      if i < 0 then m
      else m.(pics := FreeIdx(m.pics, c.longTermFrameIdx)[i := MakeLong(c.longTermFrameIdx)(m.pics[i])])
    case 4 =>
      m.(pics := Map(m.pics, UnmarkAbove(c.maxLongTermFrameIdxPlus1 - 1)),
         maxLongTermFrameIdx := c.maxLongTermFrameIdxPlus1 - 1)
    case 5 =>
      m.(pics := Map(m.pics, Unmark), cur := m.cur.(frameNum := 0, poc := 0), memMgmt5 := true,
         maxLongTermFrameIdx := -1)
    case 6 =>
      m.(pics := FreeIdx(m.pics, c.longTermFrameIdx), cur := MakeLong(c.longTermFrameIdx)(m.cur))
    case _ => m
  }

  predicate IsEnd(c: Mmco) { c.op == 0 }

  /** The operations before the end marker. */
  function Effective(ops: seq<Mmco>): seq<Mmco> {
    var k := Find(ops, IsEnd);
    if k < 0 then ops else ops[..k]
  }

  function ApplyTo(m: Marking, ops: seq<Mmco>, n: nat): (r: Marking)
    requires n <= |ops|
    ensures |r.pics| == |m.pics|
  {
    if n == 0 then m else ApplyMmco(ApplyTo(m, ops, n - 1), ops[n - 1])
  }
}
