/** H.264 picture order counts (section 8.2.1), all three types: the decoder state, one picture, and whole streams. */
module H264Poc {
  import opened Modulo
  import opened PocLsb

  datatype Field = Frame | TopField | BottomField

  datatype Sps = Sps(pocType: nat, maxPocLsb: int, maxFrameNum: int, offsets: seq<int>,
                     offsetForNonRefPic: int, offsetForTopToBottomField: int)

  /** What the decoder reads of one picture. */
  datatype Header = Header(idr: bool, nalRefIdc: nat, field: Field, frameNum: int, pocLsb: int,
                           deltaBottom: int, delta0: int, delta1: int)

  /** The counts derived for a picture; a field leaves the other field's count at its initial value. */
  datatype Counts = Counts(top: int, bottom: int, poc: int, msb: int, frameNumOffset: int)

  datatype Result = Ok(counts: Counts) | Invalid

  const UNSET := 0x7fff_ffff

  function PocOf(field: Field, top: int, bottom: int): int {
    match field
    case Frame => Min(top, bottom)
    case TopField => top
    case BottomField => bottom
  }

  // ---- Type 1: the expected order count ---------------------------------------------------------

  /** The offsets of the first k reference frames, taken round and round. */
  function PlainSum(offsets: seq<int>, k: nat): int
    requires |offsets| > 0
  {
    if k == 0 then 0 else PlainSum(offsets, k - 1) + offsets[(k - 1) % |offsets|]
  }

  lemma ModShift(x: nat, n: nat)
    requires n > 0
    ensures (n + x) % n == x % n
    ensures x < n ==> x % n == x
    ensures x == x / n * n + x % n
  {
    var y := n + x;
    assert y == y / n * n + y % n && x == x / n * n + x % n;
    ModUnique(y, n, x / n + 1, x % n);
  }

  lemma {:induction false} PlainSumShift(offsets: seq<int>, m: nat)
    requires |offsets| > 0
    ensures PlainSum(offsets, |offsets| + m) == PlainSum(offsets, |offsets|) + PlainSum(offsets, m)
  {
    if m > 0 {
      PlainSumShift(offsets, m - 1);
      ModShift(m - 1, |offsets|);
      assert |offsets| + m - 1 == |offsets| + (m - 1);
    }
  }

  /** Whole cycles times the cycle sum, plus the part of a cycle, is the plain sum. */
  lemma {:induction false} CyclesAreThePlainSum(offsets: seq<int>, cycles: nat, rest: nat)
    requires |offsets| > 0
    ensures PlainSum(offsets, cycles * |offsets| + rest)
         == cycles * PlainSum(offsets, |offsets|) + PlainSum(offsets, rest)
  {
    if cycles > 0 {
      var n := |offsets|;
      CyclesAreThePlainSum(offsets, cycles - 1, rest);
      assert cycles * n + rest == n + ((cycles - 1) * n + rest);
      PlainSumShift(offsets, (cycles - 1) * n + rest);
      assert cycles * PlainSum(offsets, n) == PlainSum(offsets, n) + (cycles - 1) * PlainSum(offsets, n);
    }
  }

  /** The number of reference frames before the current picture, by frame_num. */
  function AbsFrameNum(sps: Sps, nalRefIdc: nat, unwrapped: nat): nat {
    var a := if |sps.offsets| != 0 then unwrapped else 0;
    if nalRefIdc == 0 && a > 0 then a - 1 else a
  }

  function Expected(sps: Sps, nalRefIdc: nat, unwrapped: nat): int {
    var a := AbsFrameNum(sps, nalRefIdc, unwrapped);
    (if a > 0 then PlainSum(sps.offsets, a) else 0) + (if nalRefIdc == 0 then sps.offsetForNonRefPic else 0)
  }

  /** Type 1, picture by picture: each reference frame adds its own offset, in turn, to the count of the one before it,
      and a non-reference picture, numbered one on, lies one fixed offset beside the reference before it. */
  lemma ExpectedStep(sps: Sps, unwrapped: nat)
    requires |sps.offsets| > 0
    ensures Expected(sps, 1, 0) == 0
    ensures Expected(sps, 1, unwrapped + 1) == Expected(sps, 1, unwrapped) + sps.offsets[unwrapped % |sps.offsets|]
    ensures Expected(sps, 0, unwrapped + 1) == Expected(sps, 1, unwrapped) + sps.offsetForNonRefPic
  {
    assert PlainSum(sps.offsets, unwrapped + 1)
        == PlainSum(sps.offsets, unwrapped) + sps.offsets[(unwrapped + 1 - 1) % |sps.offsets|];
    assert unwrapped == 0 ==> PlainSum(sps.offsets, 0) == 0;
  }

  /** Whole cycles and the part of a cycle that follows them. */
  lemma CycleSplit(offsets: seq<int>, k: nat)
    requires |offsets| > 0 && k > 0
    ensures var n := |offsets|;
            var cycles, rest := (k - 1) / n, (k - 1) % n + 1;
            PlainSum(offsets, k) == cycles * PlainSum(offsets, n) + PlainSum(offsets, rest)
  {
    var n := |offsets|;
    ModShift(k - 1, n);
    CyclesAreThePlainSum(offsets, (k - 1) / n, (k - 1) % n + 1);
    assert (k - 1) / n * n + ((k - 1) % n + 1) == k;
  }

  /** Adds the first n offsets, n at most one cycle. */
  method AddOffsets(offsets: seq<int>, n: nat, start: int) returns (sum: int)
    requires 0 < |offsets| && n <= |offsets|
    ensures sum == start + PlainSum(offsets, n)
  {
    sum := start;
    for i := 0 to n
      invariant sum == start + PlainSum(offsets, i)
    {
      ModShift(i, |offsets|);
      sum := sum + offsets[i];
    }
  }

  method ExpectedPoc(sps: Sps, nalRefIdc: nat, unwrapped: nat) returns (expected: int)
    ensures expected == Expected(sps, nalRefIdc, unwrapped)
  {
    hide PlainSum;
    var absFrameNum: nat := if |sps.offsets| != 0 then unwrapped else 0;
    if nalRefIdc == 0 && absFrameNum > 0 {
      absFrameNum := absFrameNum - 1;
    }
    expected := 0;
    if absFrameNum > 0 {
      var n := |sps.offsets|;
      var cycles, inCycle := (absFrameNum - 1) / n, (absFrameNum - 1) % n;
      var perCycle := AddOffsets(sps.offsets, n, 0);
      expected := AddOffsets(sps.offsets, inCycle + 1, cycles * perCycle);
      CycleSplit(sps.offsets, absFrameNum);
    }
    if nalRefIdc == 0 {
      expected := expected + sps.offsetForNonRefPic;
    }
  }

  // ---- One picture --------------------------------------------------------------------------------

  /** frame_num counted on from the previous picture, across the wrap. */
  function Offset(prevOffset: int, prevFrameNum: int, frameNum: int, max: int): int {
    if prevFrameNum > frameNum then prevOffset + max else prevOffset
  }

  function Type2(idr: bool, nalRefIdc: nat, unwrapped: int): int {
    if idr then 0 else if nalRefIdc == 0 then 2 * unwrapped - 1 else 2 * unwrapped
  }

  class PocState {
    var prevRefHasMemMgmt5: bool
    var prevRefField: Field
    var prevRefTopFieldOrderCnt: int
    var prevRefPocMsb: int
    var prevRefPocLsb: int
    var prevFrameNum: int
    var prevHasMemMgmt5: bool
    var prevFrameNumOffset: int

    constructor ()
      ensures !prevRefHasMemMgmt5 && prevRefPocMsb == prevRefPocLsb == 0
      ensures prevFrameNum == prevFrameNumOffset == 0 && !prevHasMemMgmt5
    {
      prevRefHasMemMgmt5, prevRefField, prevRefTopFieldOrderCnt := false, Frame, 0;
      prevRefPocMsb, prevRefPocLsb, prevFrameNum, prevHasMemMgmt5, prevFrameNumOffset := 0, 0, 0, false, 0;
    }

    /** The anchor of the msb recovery: zero at an IDR, the reset count after operation 5, else the last reference. */
    function AnchorMsb(idr: bool): int
      reads this
    {
      if idr || prevRefHasMemMgmt5 then 0 else prevRefPocMsb
    }

    function AnchorLsb(idr: bool): int
      reads this
    {
      if idr then 0
      else if prevRefHasMemMgmt5 then (if prevRefField != BottomField then prevRefTopFieldOrderCnt else 0)
      else prevRefPocLsb
    }

    function OffsetOf(h: Header, max: int): int
      reads this
    {
      if h.idr then 0
      else Offset(if prevHasMemMgmt5 then 0 else prevFrameNumOffset, prevFrameNum, h.frameNum, max)
    }

    method CalculatePoc(sps: Sps, h: Header) returns (r: Result)
      requires 0 <= h.frameNum < sps.maxFrameNum && prevFrameNumOffset >= 0
      modifies `prevFrameNumOffset
      ensures r.Invalid? <==> sps.pocType > 2
      ensures prevFrameNumOffset >= 0 && (prevFrameNumOffset == old(prevFrameNumOffset) || prevHasMemMgmt5)
      ensures sps.pocType == 0 ==>
                && r.counts.msb == Msb(old(AnchorMsb(h.idr)), old(AnchorLsb(h.idr)), h.pocLsb, sps.maxPocLsb)
                && r.counts.frameNumOffset == 0
                && r.counts.poc == PocOf(h.field, r.counts.msb + h.pocLsb,
                                         r.counts.msb + h.pocLsb + if h.field.Frame? then h.deltaBottom else 0)
                && (h.field != BottomField ==> r.counts.top == r.counts.msb + h.pocLsb)
      ensures sps.pocType == 1 ==>
                && r.counts.frameNumOffset == old(OffsetOf(h, sps.maxFrameNum)) >= 0
                && var top := Expected(sps, h.nalRefIdc, r.counts.frameNumOffset + h.frameNum) + h.delta0;
                   r.counts.poc == PocOf(h.field, top, top + sps.offsetForTopToBottomField
                                                       + if h.field.Frame? then h.delta1 else 0)
      ensures sps.pocType == 2 ==>
                && r.counts.frameNumOffset == old(OffsetOf(h, sps.maxFrameNum)) >= 0
                && r.counts.poc == Type2(h.idr, h.nalRefIdc, r.counts.frameNumOffset + h.frameNum)
    {
      var top, bottom, msb, offset := UNSET, UNSET, 0, 0;
      if sps.pocType == 0 {
        var prevMsb, prevLsb := 0, 0;
        if !h.idr {
          if prevRefHasMemMgmt5 {
            if prevRefField != BottomField {
              prevMsb, prevLsb := 0, prevRefTopFieldOrderCnt;
            }
          } else {
            prevMsb, prevLsb := prevRefPocMsb, prevRefPocLsb;
          }
        }
        if h.pocLsb < prevLsb && prevLsb - h.pocLsb >= sps.maxPocLsb / 2 {
          msb := prevMsb + sps.maxPocLsb;
        } else if h.pocLsb > prevLsb && h.pocLsb - prevLsb > sps.maxPocLsb / 2 {
          msb := prevMsb - sps.maxPocLsb;
        } else {
          msb := prevMsb;
        }
        match h.field {
          case Frame =>
            top := msb + h.pocLsb;
            bottom := top + h.deltaBottom;
          case TopField =>
            top := msb + h.pocLsb;
          case BottomField =>
            bottom := msb + h.pocLsb;
        }
      } else if sps.pocType == 1 || sps.pocType == 2 {
        if prevHasMemMgmt5 {
          prevFrameNumOffset := 0;
        }
        if h.idr {
          offset := 0;
        } else if prevFrameNum > h.frameNum {
          offset := prevFrameNumOffset + sps.maxFrameNum;
        } else {
          offset := prevFrameNumOffset;
        }
        if sps.pocType == 1 {
          var expected := ExpectedPoc(sps, h.nalRefIdc, offset + h.frameNum);
          match h.field {
            case Frame =>
              top := expected + h.delta0;
              bottom := top + sps.offsetForTopToBottomField + h.delta1;
            case TopField =>
              top := expected + h.delta0;
            case BottomField =>
              bottom := expected + sps.offsetForTopToBottomField + h.delta0;
          }
        } else {
          var temp := if h.idr then 0
                      else if h.nalRefIdc == 0 then 2 * (offset + h.frameNum) - 1
                      else 2 * (offset + h.frameNum);
          match h.field {
            case Frame => top, bottom := temp, temp;
            case TopField => top := temp;
            case BottomField => bottom := temp;
          }
        }
      } else {
        return Invalid;
      }
      r := Ok(Counts(top, bottom, PocOf(h.field, top, bottom), msb, offset));
    }

    /** What `finish_picture` keeps of a picture for the next ones. Operation 5 has already reset frameNum and top. */
    method Remember(ref: bool, memMgmt5: bool, field: Field, frameNum: int, pocLsb: int, c: Counts)
      modifies this
      ensures prevFrameNum == frameNum && prevHasMemMgmt5 == memMgmt5 && prevFrameNumOffset == c.frameNumOffset
      ensures ref ==> prevRefHasMemMgmt5 == memMgmt5 && prevRefField == field && prevRefTopFieldOrderCnt == c.top
                      && prevRefPocMsb == c.msb && prevRefPocLsb == pocLsb
      ensures !ref ==> prevRefHasMemMgmt5 == old(prevRefHasMemMgmt5) && prevRefField == old(prevRefField)
                       && prevRefTopFieldOrderCnt == old(prevRefTopFieldOrderCnt)
                       && prevRefPocMsb == old(prevRefPocMsb) && prevRefPocLsb == old(prevRefPocLsb)
    {
      if ref {
        prevRefHasMemMgmt5, prevRefTopFieldOrderCnt := memMgmt5, c.top;
        prevRefPocMsb, prevRefPocLsb, prevRefField := c.msb, pocLsb, field;
      }
      prevFrameNum, prevHasMemMgmt5, prevFrameNumOffset := frameNum, memMgmt5, c.frameNumOffset;
    }
  }

  // ---- Whole streams, type 0 ----------------------------------------------------------------------

  /** A picture as the encoder knows it. `top` and `bottom` are its counts before any reset by operation 5. */
  datatype Coded = Coded(idr: bool, ref: bool, field: Field, memMgmt5: bool, top: int, bottom: int)

  /** The count whose low bits are sent. */
  function Base(c: Coded): int { if c.field.BottomField? then c.bottom else c.top }

  /** The anchor a reference picture leaves: operation 5 makes the counts relative to the picture itself. */
  function Left(c: Coded): int {
    if !c.memMgmt5 then Base(c)
    else if c.field.Frame? then c.top - Min(c.top, c.bottom)
    else 0
  }

  function Anchor(cs: seq<Coded>, n: nat): int
    requires n <= |cs|
  {
    if n == 0 then 0 else if cs[n - 1].ref then Left(cs[n - 1]) else Anchor(cs, n - 1)
  }

  predicate Recoverable(cs: seq<Coded>, n: nat, max: int)
    requires n < |cs|
  {
    Near(Base(cs[n]), if cs[n].idr then 0 else Anchor(cs, n), max)
  }

  ghost predicate RecoverableTo(cs: seq<Coded>, n: nat, max: int)
    requires n <= |cs|
  {
    forall k :: 0 <= k < n ==> Recoverable(cs, k, max)
  }

  /** Only references carry operation 5, and the count it resets to stays below one period. */
  predicate ResetOk(c: Coded, max: int) {
    c.memMgmt5 ==> c.ref && (c.field.Frame? ==> c.top - Min(c.top, c.bottom) < max)
  }

  function Send(c: Coded, max: int): Header
    requires max > 0
  {
    Header(c.idr, if c.ref then 1 else 0, c.field, 0, Base(c) % max, c.bottom - c.top, 0, 0)
  }

  /** What operation 5 does to the counts of the picture that carries it. */
  function Reset(c: Coded, r: Counts): Counts {
    if !c.memMgmt5 then r
    else match c.field
      case Frame => r.(top := r.top - r.poc, bottom := r.bottom - r.poc, poc := Min(r.top - r.poc, r.bottom - r.poc))
      case TopField => r.(top := 0, poc := 0)
      case BottomField => r.(bottom := 0, poc := 0)
  }

  /** The state is what an encoder with the true counts expects. */
  ghost predicate Tracks(state: PocState, anchor: int, max: int)
    requires max > 0
    reads state
  {
    state.AnchorLsb(false) == anchor % max && state.AnchorMsb(false) == anchor - anchor % max
  }

  lemma ModSelf(x: int, max: int)
    requires 0 <= x < max
    ensures x % max == x
  {
  }

  function AnchorFor(c: Coded, anchor: int): int { if c.idr then 0 else anchor }

  /** One picture: from a state that tracks the anchor, the count is right exactly when the picture is near,
      and then the state tracks the next anchor. */
  method DecodeOne(state: PocState, c: Coded, max: int, ghost anchor: int) returns (r: Counts)
    requires IsRange(max) && ResetOk(c, max) && state.prevFrameNumOffset >= 0
    modifies state
    ensures state.prevFrameNumOffset >= 0
    ensures old(Tracks(state, anchor, max)) ==>
              (r.poc == PocOf(c.field, c.top, c.bottom) <==> Near(Base(c), AnchorFor(c, anchor), max))
    ensures old(Tracks(state, anchor, max)) && Near(Base(c), AnchorFor(c, anchor), max) ==>
              Tracks(state, if c.ref then Left(c) else anchor, max)
  {
    hide Msb;
    RecoverIff(Base(c), AnchorFor(c, anchor), max);
    ModSelf(0, max);
    var h := Send(c, max);
    var result := state.CalculatePoc(Sps(0, max, 1, [], 0, 0), h);
    r := result.counts;
    ghost var reset := Reset(c, r);
    if c.memMgmt5 && c.field.Frame? {
      ModSelf(c.top - Min(c.top, c.bottom), max);
    }
    state.Remember(c.ref, c.memMgmt5, c.field, 0, h.pocLsb, Reset(c, r));
  }

  /** Every count of a type 0 stream is recovered from its low bits exactly when each picture keeps within half a
      period of its anchor: the previous reference picture, zero at an IDR, the reset count after operation 5. */
  method DecodeType0(cs: seq<Coded>, max: int) returns (counts: seq<Counts>)
    requires IsRange(max) && forall k :: 0 <= k < |cs| ==> ResetOk(cs[k], max)
    ensures |counts| == |cs|
    ensures (forall k :: 0 <= k < |cs| ==> counts[k].poc == PocOf(cs[k].field, cs[k].top, cs[k].bottom))
            <==> RecoverableTo(cs, |cs|, max)
  {
    var state := new PocState();
    counts := [];
    ModSelf(0, max);
    for i := 0 to |cs|
      invariant |counts| == i && fresh(state) && state.prevFrameNumOffset >= 0
      invariant (forall k :: 0 <= k < i ==> counts[k].poc == PocOf(cs[k].field, cs[k].top, cs[k].bottom))
                <==> RecoverableTo(cs, i, max)
      invariant RecoverableTo(cs, i, max) ==> Tracks(state, Anchor(cs, i), max)
    {
      hide Tracks;
      ghost var before := counts;
      assert RecoverableTo(cs, i + 1, max) <==> RecoverableTo(cs, i, max) && Recoverable(cs, i, max);
      var r := DecodeOne(state, cs[i], max, Anchor(cs, i));
      counts := counts + [r];
      assert forall k :: 0 <= k < i ==> counts[k] == before[k];
    }
  }

  // ---- Whole streams, types 1 and 2 ---------------------------------------------------------------

  /** A picture by its frame number counted from the last IDR or operation 5 without wrapping, and the two
      differences its header sends for type 1. */
  datatype Numbered = Numbered(idr: bool, ref: bool, memMgmt5: bool, unwrapped: nat, delta0: int, delta1: int)

  /** The number the next picture counts on from. */
  function Previous(ns: seq<Numbered>, n: nat): nat
    requires n <= |ns|
  {
    if n == 0 || ns[n - 1].memMgmt5 then 0 else ns[n - 1].unwrapped
  }

  predicate StepOk(ns: seq<Numbered>, n: nat, max: int)
    requires n < |ns|
  {
    if ns[n].idr then ns[n].unwrapped < max else 0 <= ns[n].unwrapped - Previous(ns, n) < max
  }

  ghost predicate StepsOk(ns: seq<Numbered>, n: nat, max: int)
    requires n <= |ns|
  {
    forall k :: 0 <= k < n ==> StepOk(ns, k, max)
  }

  /** The wrapped number and the carried offset give the number back exactly when it advances by less than one
      period. */
  lemma UnwrapIff(u: nat, prev: nat, max: int)
    requires max > 0
    ensures Offset(prev - prev % max, prev % max, u % max, max) + u % max == u <==> 0 <= u - prev < max
  {
    var k := u / max - prev / max;
    assert u - prev == k * max + u % max - prev % max by {
      assert u == u / max * max + u % max && prev == prev / max * max + prev % max;
      assert k * max == u / max * max - prev / max * max;
    }
    if k >= 2 || k <= -2 {
      MultiplesApart(k, max);
    } else {
      assert k == 0 || k == 1 || k == -1;
    }
  }

  ghost predicate Follows(state: PocState, prev: nat, max: int)
    requires max > 0
    reads state
  {
    && state.prevFrameNum == prev % max
    && (if state.prevHasMemMgmt5 then 0 else state.prevFrameNumOffset) == prev - prev % max
  }

  function SendNumber(c: Numbered, max: int): Header
    requires max > 0
  {
    Header(c.idr, if c.ref then 1 else 0, Frame, c.unwrapped % max, 0, 0, c.delta0, c.delta1)
  }

  /** The order count of a frame whose number is taken to be u: the lower of its two fields' counts. */
  function NumberedPoc(sps: Sps, c: Numbered, u: nat): int {
    var idc := if c.ref then 1 else 0;
    if sps.pocType == 2 then Type2(c.idr, idc, u)
    else
      var top := Expected(sps, idc, u) + c.delta0;
      Min(top, top + sps.offsetForTopToBottomField + c.delta1)
  }

  method DecodeNumber(state: PocState, sps: Sps, c: Numbered, ghost prev: nat) returns (r: Counts)
    requires (sps.pocType == 1 || sps.pocType == 2) && sps.maxFrameNum > 0 && state.prevFrameNumOffset >= 0
    modifies state
    ensures state.prevFrameNumOffset >= 0 && r.frameNumOffset >= 0
    ensures var ok := if c.idr then c.unwrapped < sps.maxFrameNum else 0 <= c.unwrapped - prev < sps.maxFrameNum;
            old(Follows(state, prev, sps.maxFrameNum)) ==>
              && (r.frameNumOffset + c.unwrapped % sps.maxFrameNum == c.unwrapped <==> ok)
              && (ok ==> Follows(state, if c.memMgmt5 then 0 else c.unwrapped, sps.maxFrameNum))
    ensures r.poc == NumberedPoc(sps, c, r.frameNumOffset + c.unwrapped % sps.maxFrameNum)
  {
    hide Offset;
    UnwrapIff(c.unwrapped, prev, sps.maxFrameNum);
    ModSelf(0, sps.maxFrameNum);
    ModIdentity(c.unwrapped, sps.maxFrameNum);
    var result := state.CalculatePoc(sps, SendNumber(c, sps.maxFrameNum));
    r := result.counts;
    state.Remember(c.ref, c.memMgmt5, Frame, if c.memMgmt5 then 0 else c.unwrapped % sps.maxFrameNum, 0, r);
  }

  lemma ModIdentity(x: nat, max: int)
    requires max > 0
    ensures x % max == x <==> x < max
  {
  }

  function Type2Poc(c: Numbered): int { Type2(c.idr, if c.ref then 1 else 0, c.unwrapped) }

  /** Type 2: from one picture to the next the order count grows exactly when the number does, or when a
      reference picture shares its number with the non-reference picture before it. */
  lemma Type2StepIff(a: Numbered, b: Numbered)
    requires a.idr ==> a.unwrapped == 0 && a.ref
    requires !b.idr && a.unwrapped <= b.unwrapped
    ensures Type2Poc(a) < Type2Poc(b) <==> a.unwrapped < b.unwrapped || (!a.ref && b.ref)
  {
  }

  /** frame_num as the standard wants it for type 2: inside a sequence it grows after a reference picture, and no two
      non-reference pictures in a row share it. */
  ghost predicate LegalType2(ns: seq<Numbered>) {
    && (forall k :: 0 <= k < |ns| && ns[k].idr ==> ns[k].unwrapped == 0 && ns[k].ref)
    && (forall k :: 0 < k < |ns| && Continues(ns, k) ==>
          && ns[k - 1].unwrapped <= ns[k].unwrapped
          && (ns[k - 1].ref || !ns[k].ref ==> ns[k - 1].unwrapped < ns[k].unwrapped))
  }

  /** Picture k counts on from the picture before it. */
  predicate Continues(ns: seq<Numbered>, k: nat)
    requires 0 < k < |ns|
  {
    !ns[k].idr && !ns[k - 1].memMgmt5
  }

  ghost predicate OneSequence(ns: seq<Numbered>, i: nat, j: nat)
    requires j < |ns|
  {
    forall k :: i < k <= j ==> Continues(ns, k)
  }

  /** Type 2 output order is decoding order, across every wrap of frame_num. */
  lemma {:induction false} Type2Increasing(ns: seq<Numbered>, i: nat, j: nat)
    requires LegalType2(ns) && i < j < |ns| && OneSequence(ns, i, j)
    ensures Type2Poc(ns[i]) < Type2Poc(ns[j])
  {
    assert Continues(ns, j);
    Type2StepIff(ns[j - 1], ns[j]);
    if i < j - 1 {
      Type2Increasing(ns, i, j - 1);
    }
  }

  /** The frame numbers of a type 1 or type 2 stream are unwrapped correctly exactly when each step is legal. Then
      every order count is the true one, and for type 2 the decoded counts of a sequence increase. */
  method DecodeNumbers(sps: Sps, ns: seq<Numbered>) returns (counts: seq<Counts>)
    requires (sps.pocType == 1 || sps.pocType == 2) && sps.maxFrameNum > 0
    ensures |counts| == |ns|
    ensures (forall k :: 0 <= k < |ns| ==>
               counts[k].frameNumOffset + ns[k].unwrapped % sps.maxFrameNum == ns[k].unwrapped)
            <==> StepsOk(ns, |ns|, sps.maxFrameNum)
    ensures StepsOk(ns, |ns|, sps.maxFrameNum) ==>
              forall k :: 0 <= k < |ns| ==> counts[k].poc == NumberedPoc(sps, ns[k], ns[k].unwrapped)
    ensures StepsOk(ns, |ns|, sps.maxFrameNum) && sps.pocType == 2 && LegalType2(ns) ==>
              forall i, j :: 0 <= i < j < |ns| && OneSequence(ns, i, j) ==> counts[i].poc < counts[j].poc
  {
    hide NumberedPoc, LegalType2, OneSequence;
    var state := new PocState();
    var max := sps.maxFrameNum;
    counts := [];
    ModSelf(0, max);
    for i := 0 to |ns|
      invariant |counts| == i && fresh(state) && state.prevFrameNumOffset >= 0
      invariant (forall k :: 0 <= k < i ==> counts[k].frameNumOffset + ns[k].unwrapped % max == ns[k].unwrapped)
                <==> StepsOk(ns, i, max)
      invariant StepsOk(ns, i, max) ==> Follows(state, Previous(ns, i), max)
      invariant StepsOk(ns, i, max) ==>
                  forall k :: 0 <= k < i ==> counts[k].poc == NumberedPoc(sps, ns[k], ns[k].unwrapped)
    {
      hide Follows;
      ghost var before := counts;
      assert StepsOk(ns, i + 1, max) <==> StepsOk(ns, i, max) && StepOk(ns, i, max);
      var r := DecodeNumber(state, sps, ns[i], Previous(ns, i));
      counts := counts + [r];
      assert forall k :: 0 <= k < i ==> counts[k] == before[k];
    }
    DecodedIncreasing(sps, ns, counts);
  }

  lemma DecodedIncreasing(sps: Sps, ns: seq<Numbered>, counts: seq<Counts>)
    requires |counts| == |ns|
    ensures (forall k :: 0 <= k < |ns| ==> counts[k].poc == NumberedPoc(sps, ns[k], ns[k].unwrapped))
            && sps.pocType == 2 && LegalType2(ns) ==>
              forall i, j :: 0 <= i < j < |ns| && OneSequence(ns, i, j) ==> counts[i].poc < counts[j].poc
  {
    if LegalType2(ns) {
      forall i, j | 0 <= i < j < |ns| && OneSequence(ns, i, j)
        ensures Type2Poc(ns[i]) < Type2Poc(ns[j])
      {
        Type2Increasing(ns, i, j);
      }
      assert sps.pocType == 2 ==>
          forall k :: 0 <= k < |ns| ==> NumberedPoc(sps, ns[k], ns[k].unwrapped) == Type2Poc(ns[k]);
    }
  }
}
