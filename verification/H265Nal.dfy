/** From NAL units to pictures: NoRaslOutputFlag, the two flags that remember an end of sequence or of bitstream, the
    pictures that are dropped, and what an end of bitstream does to the buffer (H.265, sections 8.1.3 and C.5.2.2). */
module H265Nal {
  import opened Seqs
  import opened H265DpbSpec
  import opened H265Marking
  import opened H265Machine
  import opened H265Run
  import H265Poc

  const BLA_N_LP := 18
  const CRA_NUT := 21

  /** What is read of a slice header; first says that the slice begins a picture. */
  datatype Header = Header(first: bool, id: nat, poc: int, pocLsb: int, picOutput: bool, rps: Rps,
                           noOutputOfPriorPics: bool)

  datatype Nal = SliceNal(nalType: nat, header: Header) | EndOfSequence | EndOfBitstream | OtherNal

  predicate IsBla(t: nat) { H265Poc.BLA_W_LP <= t <= BLA_N_LP }

  predicate IsRasl(t: nat) { t == H265Poc.RASL_N || t == H265Poc.RASL_R }

  /** Reserved types are not decoded. */
  predicate IsSlice(n: Nal) { n.SliceNal? && (n.nalType <= H265Poc.RASL_R || H265Poc.BLA_W_LP <= n.nalType <= CRA_NUT) }

  predicate StartsPicture(n: Nal) { IsSlice(n) && n.header.first }

  /** What the decoder remembers between NAL units. */
  datatype Flags = Flags(newBitstream: bool, prevNalIsEos: bool, associatedNoRasl: bool)

  predicate NoRaslOutput(f: Flags, t: nat) {
    || H265Poc.IsIdr(t)
    || IsBla(t)
    || (t == CRA_NUT && f.newBitstream)
    || f.prevNalIsEos
  }

  function After(f: Flags, n: Nal): Flags {
    match n
    case EndOfSequence => f.(prevNalIsEos := true)
    case EndOfBitstream => f.(newBitstream := true)
    case OtherNal => f
    case SliceNal(t, h) =>
      if !IsSlice(n) then f
      else Flags(false, false, if h.first && H265Poc.IsIrap(t) then NoRaslOutput(f, t) else f.associatedNoRasl)
  }

  /** RASL pictures of an IRAP picture with NoRaslOutputFlag are dropped. */
  predicate Dropped(f: Flags, n: Nal)
    requires IsSlice(n)
  {
    IsRasl(n.nalType) && f.associatedNoRasl
  }

  const NoRps := Rps([], [], [], [], [])

  /** The picture that a slice begins. */
  function SliceOf(f: Flags, n: Nal): Slice
    requires IsSlice(n)
  {
    var irap, noRasl := H265Poc.IsIrap(n.nalType), NoRaslOutput(f, n.nalType);
    Slice(n.header.id, n.header.poc, n.header.pocLsb, n.header.picOutput,
          if H265Poc.IsIdr(n.nalType) then NoRps else n.header.rps,
          irap, noRasl, f.newBitstream,
          irap && noRasl && !f.newBitstream && (n.nalType == CRA_NUT || n.header.noOutputOfPriorPics))
  }

  datatype Option<T> = None | Some(value: T)

  /** The flags as the decoder's fields. */
  class NalReader {
    var newBitstream: bool
    var prevNalIsEos: bool
    var associatedIrapNoRaslOutputFlag: bool

    ghost function Value(): Flags
      reads this
    {
      Flags(newBitstream, prevNalIsEos, associatedIrapNoRaslOutputFlag)
    }

    constructor ()
      ensures Value() == Flags(true, false, false)
    {
      newBitstream, prevNalIsEos, associatedIrapNoRaslOutputFlag := true, false, false;
    }

    method ParseSlice(n: Nal) returns (s: Slice)
      requires IsSlice(n)
      ensures s == SliceOf(Value(), n)
    {
      var h := n.header;
      var noRasl, clear, noOutput := false, false, false;
      if H265Poc.IsIdr(n.nalType) || IsBla(n.nalType) || (n.nalType == CRA_NUT && newBitstream) || prevNalIsEos {
        noRasl := true;
      }
      if H265Poc.IsIrap(n.nalType) {
        if noRasl && !newBitstream {
          clear := true;
          noOutput := n.nalType == CRA_NUT || h.noOutputOfPriorPics;
        }
      }
      s := Slice(h.id, h.poc, h.pocLsb, h.picOutput, if H265Poc.IsIdr(n.nalType) then NoRps else h.rps,
                 H265Poc.IsIrap(n.nalType), noRasl, newBitstream, noOutput);
      assert clear == s.ClearDpb();
    }

    /** Parsing, and the drop decision at the start of a picture. */
    method ParseNalu(n: Nal) returns (picture: Option<Slice>)
      modifies this
      ensures Value() == After(old(Value()), n)
      ensures picture == if StartsPicture(n) && !Dropped(Value(), n) then Some(SliceOf(old(Value()), n)) else None
    {
      picture := None;
      match n
      case EndOfSequence => prevNalIsEos := true;
      case EndOfBitstream => newBitstream := true;
      case OtherNal =>
      case SliceNal(t, h) =>
        if IsSlice(n) {
          var s := ParseSlice(n);
          newBitstream := false;
          prevNalIsEos := false;
          if h.first {
            if s.irap {
              associatedIrapNoRaslOutputFlag := s.noRaslOutput;
            }
            if !(IsRasl(t) && associatedIrapNoRaslOutputFlag) {
              picture := Some(s);
            }
          }
        }
    }
  }

  // ---- Streams of NAL units ---------------------------------------------------------------------------------------

  function FlagsAfter(ns: seq<Nal>): Flags {
    if ns == [] then Flags(true, false, false) else After(FlagsAfter(ns[..|ns| - 1]), ns[|ns| - 1])
  }

  /** The pictures decoded. */
  function Pictures(ns: seq<Nal>): seq<Slice> {
    if ns == [] then []
    else
      var before, n := ns[..|ns| - 1], ns[|ns| - 1];
      if StartsPicture(n) && !Dropped(FlagsAfter(ns), n) then Pictures(before) + [SliceOf(FlagsAfter(before), n)]
      else Pictures(before)
  }

  function Play(ns: seq<Nal>, lim: Limits): State { Run(Initial, Pictures(ns), lim) }

  /** Nothing but the start of the stream, or an end of bitstream, lies between here and the last slice. */
  ghost predicate AtRestart(ns: seq<Nal>) {
    || (forall k :: 0 <= k < |ns| ==> !IsSlice(ns[k]))
    || (exists e :: 0 <= e < |ns| && ns[e].EndOfBitstream? && forall k :: e < k < |ns| ==> !IsSlice(ns[k]))
  }

  lemma {:induction false} NewBitstreamMeaning(ns: seq<Nal>)
    ensures FlagsAfter(ns).newBitstream <==> AtRestart(ns)
  {
    if ns != [] {
      var before, n := ns[..|ns| - 1], ns[|ns| - 1];
      NewBitstreamMeaning(before);
      if AtRestart(before) && !IsSlice(n) {
        if e :| 0 <= e < |before| && before[e].EndOfBitstream? && forall k :: e < k < |before| ==> !IsSlice(before[k]) {
          assert ns[e].EndOfBitstream? && forall k :: e < k < |ns| ==> !IsSlice(ns[k]);
        }
      }
      if AtRestart(ns) && !n.EndOfBitstream? {
        assert !IsSlice(n);
        if forall k :: 0 <= k < |ns| ==> !IsSlice(ns[k]) {
          assert forall k :: 0 <= k < |before| ==> !IsSlice(before[k]);
        } else {
          var e :| 0 <= e < |ns| && ns[e].EndOfBitstream? && forall k :: e < k < |ns| ==> !IsSlice(ns[k]);
          assert before[e].EndOfBitstream? && forall k :: e < k < |before| ==> !IsSlice(before[k]);
        }
      }
    }
  }

  // ---- What an IRAP picture finds -----------------------------------------------------------------------------------

  /** The additional bumping has nothing left to do. */
  predicate Quiet(st: State, lim: Limits) {
    NeedsBump(st.pics, lim.maxNumPics, lim.reorder, lim.latency, 0) ==> Lowest(st.pics) < 0
  }

  lemma RunQuiet(ss: seq<Slice>, lim: Limits)
    ensures Quiet(Run(Initial, ss, lim), lim)
  {
    if ss == [] {
    } else {
      var before, s := Run(Initial, ss[..|ss| - 1], lim), ss[|ss| - 1];
      BumpWhileShape(Insert(Start(before, s, lim), NewPic(s)), lim, 0);
    }
  }

  /** The picture waits, is no reference and is not late. */
  function JustWaits(latency: nat): Pic -> bool {
    (p: Pic) => p.needed && !p.ref && (latency == 0 || p.latency < latency)
  }

  /** Pictures that only wait, and are not too many. */
  ghost predicate OnlyWaiting(pics: seq<Pic>, lim: Limits) {
    Each(pics, JustWaits(lim.latency)) && (pics != [] ==> |pics| <= lim.maxNumPics && |pics| <= lim.reorder)
  }

  lemma WaitingDecision(pics: seq<Pic>, lim: Limits, buffering: nat)
    requires OnlyWaiting(pics, lim) && buffering > 0 && pics != []
    ensures NeedsBump(pics, lim.maxNumPics, lim.reorder, lim.latency, buffering) <==> |pics| >= buffering
    ensures Lowest(pics) >= 0
  {
    CountAll(pics, Waiting, |pics|);
  }

  lemma OutputOnlyWaiting(pics: seq<Pic>, i: nat, lim: Limits)
    requires i < |pics| && OnlyWaiting(pics, lim)
    ensures OnlyWaiting(Output(pics, i, false), lim) && |Output(pics, i, false)| == |pics| - 1
  {
  }

  /** They are output until one place is free. */
  lemma {:induction false} BumpingLeaves(st: State, lim: Limits, buffering: nat)
    requires OnlyWaiting(st.pics, lim) && buffering > 0
    ensures |BumpWhile(st, lim, buffering).pics| == if |st.pics| < buffering then |st.pics| else buffering - 1
    decreases |st.pics|
  {
    hide OnlyWaiting, NeedsBump;
    BumpWhileUnfolds(st, lim, buffering);
    if st.pics != [] {
      WaitingDecision(st.pics, lim, buffering);
    }
    if |st.pics| >= buffering {
      OutputOnlyWaiting(st.pics, Lowest(st.pics), lim);
      BumpingLeaves(BumpOnce(st, false), lim, buffering);
    }
  }

  function IfUsed(h: Pic -> bool): Pic -> bool { (p: Pic) => InUse(p) ==> h(p) }

  lemma QuietMeaning(st: State, lim: Limits, i: nat)
    requires Quiet(st, lim) && i < |st.pics| && st.pics[i].needed
    ensures |st.pics| <= lim.maxNumPics && Count(st.pics, Waiting) <= lim.reorder
    ensures lim.latency == 0 || st.pics[i].latency < lim.latency
  {
    CountAll(st.pics, Waiting, |st.pics|);
  }

  lemma MarkedJustWaits(st: State, s: Slice, lim: Limits)
    requires Quiet(st, lim) && s.UnmarkAll()
    ensures Each(Marked(st.pics, s), IfUsed(JustWaits(lim.latency)))
    ensures Count(Marked(st.pics, s), InUse) == Count(st.pics, Waiting)
  {
    hide Mark, Quiet, Count;
    var m := Marked(st.pics, s);
    forall i | 0 <= i < |m|
      ensures IfUsed(JustWaits(lim.latency))(m[i]) && InUse(m[i]) == Waiting(st.pics[i])
    {
      MarkedKeeps(st.pics, s, i);
      if st.pics[i].needed {
        QuietMeaning(st, lim, i);
      }
    }
    SameCount(m, InUse, st.pics, Waiting);
  }

  lemma SameCount(a: seq<Pic>, p: Pic -> bool, b: seq<Pic>, q: Pic -> bool)
    requires |a| == |b| && forall i :: 0 <= i < |a| ==> p(a[i]) == q(b[i])
    ensures Count(a, p) == Count(b, q)
  {
    CountSame(a, p, b, q, |a|);
  }

  /** Once the references are gone, the waiting pictures are all that is left. */
  lemma CleanedWaits(st: State, s: Slice, lim: Limits)
    requires Quiet(st, lim) && s.UnmarkAll()
    ensures OnlyWaiting(Cleaned(st, s).pics, lim) && |Cleaned(st, s).pics| == Count(st.pics, Waiting)
  {
    hide Mark, Marked, Quiet, FilterTo;
    var m, r := Marked(st.pics, s), Cleaned(st, s).pics;
    MarkedJustWaits(st, s, lim);
    FilterCount(m, InUse, |m|);
    FilterEach(m, InUse, IfUsed(JustWaits(lim.latency)));
    forall i | 0 <= i < |r|
      ensures JustWaits(lim.latency)(r[i])
    {
      assert IfUsed(JustWaits(lim.latency))(r[i]) && InUse(r[i]);
    }
    if r != [] {
      SomeWaits(st.pics);
      QuietMeaning(st, lim, Lowest(st.pics));
    }
  }

  lemma SomeWaits(pics: seq<Pic>)
    requires Count(pics, Waiting) > 0
    ensures Lowest(pics) >= 0 && pics[Lowest(pics)].needed && Count(pics, Waiting) <= |pics|
  {
    CountAll(pics, Waiting, |pics|);
  }

  /** What an IRAP picture with NoRaslOutputFlag finds stored: nothing, unless the bitstream has just restarted; then
      the waiting pictures of the bitstream before, as many as fit beside it. */
  lemma IrapFinds(st: State, s: Slice, lim: Limits)
    requires Quiet(st, lim) && s.UnmarkAll()
    ensures |Start(st, s, lim).pics|
         == if !s.newBitstream then 0
            else if Count(st.pics, Waiting) <= lim.bufferingMinus1 then Count(st.pics, Waiting)
            else lim.bufferingMinus1
  {
    hide Marked, OnlyWaiting, Quiet;
    if s.ClearDpb() {
      ClearLeavesNothing(st, s, lim);
    } else {
      CleanedWaits(st, s, lim);
      StartBumps(st, s, lim);
      BumpingLeaves(Cleaned(st, s), lim, lim.bufferingMinus1 + 1);
    }
  }

  /** Over every stream: an IRAP picture with NoRaslOutputFlag starts on an empty buffer if and only if the bitstream
      did not restart before it, or nothing was waiting, or the buffer has room for one picture only. */
  lemma IrapFindsNothing(ns: seq<Nal>, n: Nal, lim: Limits)
    requires StartsPicture(n) && H265Poc.IsIrap(n.nalType) && NoRaslOutput(FlagsAfter(ns), n.nalType)
    ensures Start(Play(ns, lim), SliceOf(FlagsAfter(ns), n), lim).pics == []
       <==> !AtRestart(ns) || Count(Play(ns, lim).pics, Waiting) == 0 || lim.bufferingMinus1 == 0
  {
    hide Quiet, Start;
    RunQuiet(Pictures(ns), lim);
    NewBitstreamMeaning(ns);
    IrapFinds(Play(ns, lim), SliceOf(FlagsAfter(ns), n), lim);
  }

  // ---- Two bitstreams in one buffer ----------------------------------------------------------------

  function IdrSlice(id: nat): Nal {
    SliceNal(H265Poc.IDR_W_RADL, Header(true, id, 0, 0, true, NoRps, false))
  }

  lemma TwoPictures(a: Nal, mark: Nal, b: Nal)
    requires StartsPicture(a) && StartsPicture(b) && !IsRasl(a.nalType) && !IsRasl(b.nalType)
    requires mark.EndOfBitstream? || mark.EndOfSequence?
    ensures Pictures([a]) == [SliceOf(FlagsAfter([]), a)]
    ensures Pictures([a, mark]) == Pictures([a])
    ensures Pictures([a, mark, b]) == Pictures([a]) + [SliceOf(FlagsAfter([a, mark]), b)]
  {
    assert [a][..0] == [] && [a, mark][..1] == [a] && [a, mark, b][..2] == [a, mark];
    assert Pictures([]) == [];
  }

  /** The first picture of a decoder waits when pictures may be reordered. */
  lemma FirstWaits(s: Slice, lim: Limits)
    requires s.outputFlag && lim.reorder > 0 && lim.maxNumPics > 0 && lim.latency == 0
    ensures Run(Initial, [s], lim).pics == [Stored(NewPic(s))] && Run(Initial, [s], lim).emitted == []
  {
    assert [s][..0] == [];
    var t := Start(Initial, s, lim);
    EmptyStart(s, lim);
    assert DeleteUnused([]) == [];
    var r := Insert(t, NewPic(s));
    assert r.pics == [Stored(NewPic(s))];
    assert Count(r.pics, Waiting) <= 1;
    BumpWhileUnfolds(r, lim, 0);
  }

  lemma EmptyStart(s: Slice, lim: Limits)
    ensures Start(Initial, s, lim).pics == [] && Start(Initial, s, lim).emitted == []
  {
    hide Mark;
    StartBumps(Initial, s, lim);
    assert Cleaned(Initial, s).pics == [];
    if !s.ClearDpb() {
      BumpWhileUnfolds(Cleaned(Initial, s), lim, lim.bufferingMinus1 + 1);
    } else if !s.noOutputOfPriorPics {
      BumpAllUnfolds(Cleaned(Initial, s), false);
    }
  }

  /** IDR, end of bitstream, IDR: both pictures are stored, under one order count. With an end of sequence instead, or
      nothing at all, the second one starts on an empty buffer. */
  lemma BitstreamsMeet()
    ensures var lim := Limits(16, 2, 0, 2);
            var ns := [IdrSlice(0), EndOfBitstream, IdrSlice(1)];
            && |Play(ns, lim).pics| == 2 && Play(ns, lim).pics[0].poc == Play(ns, lim).pics[1].poc == 0
            && !DistinctPocs(Play(ns, lim).pics)
    ensures var lim := Limits(16, 2, 0, 2);
            var after := [IdrSlice(0), EndOfSequence];
            Start(Play(after, lim), SliceOf(FlagsAfter(after), IdrSlice(1)), lim).pics == []
  {
    hide Start, Finish, Mark, NeedsBump, Run;
    var lim, a, b := Limits(16, 2, 0, 2), IdrSlice(0), IdrSlice(1);
    var first := SliceOf(FlagsAfter([]), a);
    assert [a][..0] == [] && [a, EndOfBitstream][..1] == [a] && [a, EndOfSequence][..1] == [a];
    TwoPictures(a, EndOfBitstream, b);
    TwoPictures(a, EndOfSequence, b);
    FirstWaits(first, lim);
    RunQuiet([first], lim);
    var st, s := Run(Initial, [first], lim), SliceOf(FlagsAfter([a, EndOfBitstream]), b);
    OneWaits(st.pics);
    IrapFinds(st, s, lim);
    IrapFinds(st, SliceOf(FlagsAfter([a, EndOfSequence]), b), lim);
    SecondJoins(st, s, lim);
    RunOfTwo(first, s, lim);
  }

  lemma OneWaits(pics: seq<Pic>)
    requires |pics| == 1 && pics[0].needed
    ensures Count(pics, Waiting) == 1
  {
  }

  lemma RunOfTwo(a: Slice, b: Slice, lim: Limits)
    ensures Run(Initial, [a] + [b], lim) == Step(Run(Initial, [a], lim), b, lim)
  {
    assert ([a] + [b])[..1] == [a];
  }

  function PocZero(p: Pic): bool { p.poc == 0 }

  /** A picture that finds one waiting picture joins it. */
  lemma SecondJoins(st: State, s: Slice, lim: Limits)
    requires |st.pics| == 1 && st.pics[0].poc == s.poc == 0 && s.UnmarkAll() && s.newBitstream && s.outputFlag
    requires Quiet(st, lim) && Count(st.pics, Waiting) == 1 && lim == Limits(16, 2, 0, 2)
    ensures var r := Step(st, s, lim).pics;
            |r| == 2 && r[0].poc == r[1].poc == 0 && !DistinctPocs(r)
  {
    hide Start, Mark, OnlyWaiting;
    var t := Start(st, s, lim);
    IrapFinds(st, s, lim);
    StartZero(st, s, lim);
    var r := Insert(t, NewPic(s));
    KeepsAll(t.pics);
    assert |r.pics| == 2 && r.pics[0].poc == 0 && r.pics[1].poc == 0;
    assert Count(r.pics, Waiting) <= 2;
    BumpWhileUnfolds(r, lim, 0);
    assert !PocsDiffer(r.pics[0], r.pics[1]);
  }

  lemma StartZero(st: State, s: Slice, lim: Limits)
    requires |st.pics| == 1 && st.pics[0].poc == 0 && s.UnmarkAll() && s.newBitstream
    ensures Each(Start(st, s, lim).pics, PocZero) && Each(Start(st, s, lim).pics, InUse)
  {
    hide Mark;
    MarkedKeeps(st.pics, s, 0);
    StartKeepsEach(st, s, lim, PocZero);
    CleanedShape(st, s);
    StartBumps(st, s, lim);
    BumpWhileShape(Cleaned(st, s), lim, lim.bufferingMinus1 + 1);
  }

  lemma KeepsAll(pics: seq<Pic>)
    requires |pics| == 1 && Each(pics, InUse)
    ensures DeleteUnused(pics) == pics
  {
    assert InUse(pics[0]);
  }
}
