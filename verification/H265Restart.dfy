/** Order counts over whole streams of NAL units: distinct in the buffer when they are distinct within each coded video
    sequence, unless a bitstream restarts over waiting pictures, and what such a restart does to the output order. */
module H265Restart {
  import opened Seqs
  import opened H265DpbSpec
  import opened H265Marking
  import opened H265Machine
  import opened H265Run
  import opened H265Nal
  import H265Poc

  /** The order counts of the coded video sequence that the last picture belongs to. */
  function SequencePocs(ss: seq<Slice>): set<int> {
    if ss == [] then {}
    else
      var before, s := ss[..|ss| - 1], ss[|ss| - 1];
      (if s.UnmarkAll() then {} else SequencePocs(before)) + {s.poc}
  }

  /** No two pictures of one coded video sequence have one order count. */
  predicate DistinctInSequences(ss: seq<Slice>) {
    ss == [] ||
    var before, s := ss[..|ss| - 1], ss[|ss| - 1];
    DistinctInSequences(before) && (s.UnmarkAll() || s.poc !in SequencePocs(before))
  }

  /** The slice begins a sequence where the bitstream restarted, over pictures that still wait for output and that fit
      beside it. */
  predicate Overlaps(st: State, s: Slice, lim: Limits) {
    s.UnmarkAll() && s.newBitstream && Count(st.pics, Waiting) != 0 && lim.bufferingMinus1 != 0
  }

  predicate NeverOverlaps(ss: seq<Slice>, lim: Limits) {
    ss == [] ||
    var before, s := ss[..|ss| - 1], ss[|ss| - 1];
    NeverOverlaps(before, lim) && !Overlaps(Run(Initial, before, lim), s, lim)
  }

  function PocIn(pocs: set<int>): Pic -> bool { (p: Pic) => p.poc in pocs }

  /** What is stored before a picture is of its own sequence, or nothing. */
  lemma StartOfSequence(ss: seq<Slice>, s: Slice, lim: Limits)
    requires Each(Run(Initial, ss, lim).pics, PocIn(SequencePocs(ss))) && !Overlaps(Run(Initial, ss, lim), s, lim)
    ensures Each(Start(Run(Initial, ss, lim), s, lim).pics, PocIn(if s.UnmarkAll() then {} else SequencePocs(ss)))
  {
    hide Run, SequencePocs, Marked, Start;
    var st, h := Run(Initial, ss, lim), PocIn(SequencePocs(ss));
    if s.UnmarkAll() {
      RunQuiet(ss, lim);
      IrapFinds(st, s, lim);
    } else {
      forall i | 0 <= i < |st.pics|
        ensures h(Marked(st.pics, s)[i])
      {
        MarkedKeeps(st.pics, s, i);
      }
      StartKeepsEach(st, s, lim, h);
    }
  }

  lemma FinishOfSequence(st: State, s: Slice, pocs: set<int>, lim: Limits)
    requires Each(st.pics, PocIn(pocs))
    ensures Each(Finish(st, s, lim).pics, PocIn(pocs + {s.poc}))
  {
    var h, r := PocIn(pocs + {s.poc}), Insert(st, NewPic(s));
    FilterEach(st.pics, InUse, PocIn(pocs));
    assert Each(r.pics, h);
    BumpWhileKeepsEach(r, lim, 0, h);
  }

  /** Every stored picture is of the current sequence. */
  lemma {:induction false} RunOfSequence(ss: seq<Slice>, lim: Limits)
    requires NeverOverlaps(ss, lim)
    ensures Each(Run(Initial, ss, lim).pics, PocIn(SequencePocs(ss)))
  {
    hide Start, Finish, Overlaps;
    if ss != [] {
      var before, s := ss[..|ss| - 1], ss[|ss| - 1];
      RunOfSequence(before, lim);
      StartOfSequence(before, s, lim);
      var pocs := if s.UnmarkAll() then {} else SequencePocs(before);
      FinishOfSequence(Start(Run(Initial, before, lim), s, lim), s, pocs, lim);
    }
  }

  /** A stream of distinct order counts reuses none that is stored; so its runs keep the capacity too. */
  lemma {:induction false} DistinctIsAdmissible(ss: seq<Slice>, lim: Limits)
    requires DistinctInSequences(ss) && NeverOverlaps(ss, lim)
    requires forall i :: 0 <= i < |ss| ==> Size(ss[i].rps) <= lim.bufferingMinus1
    ensures Admissible(ss, lim)
  {
    hide Start, Overlaps, SequencePocs;
    if ss != [] {
      var before, s := ss[..|ss| - 1], ss[|ss| - 1];
      DistinctIsAdmissible(before, lim);
      RunOfSequence(before, lim);
      StartOfSequence(before, s, lim);
      var r := Start(Run(Initial, before, lim), s, lim).pics;
      forall p | p in r
        ensures p.poc != s.poc
      {
        var i :| 0 <= i < |r| && r[i] == p;
        assert PocIn(if s.UnmarkAll() then {} else SequencePocs(before))(r[i]);
      }
    }
  }

  /** Whatever the reference picture sets: the stored order counts are distinct. */
  lemma {:induction false} RunKeepsDistinct(ss: seq<Slice>, lim: Limits)
    requires DistinctInSequences(ss) && NeverOverlaps(ss, lim)
    ensures DistinctPocs(Run(Initial, ss, lim).pics)
  {
    hide Start, Overlaps, SequencePocs, Insert, DistinctPocs, BumpWhile;
    if ss == [] {
      NoneDistinct();
    } else {
      var before, s := ss[..|ss| - 1], ss[|ss| - 1];
      RunKeepsDistinct(before, lim);
      RunOfSequence(before, lim);
      StartOfSequence(before, s, lim);
      var t := Start(Run(Initial, before, lim), s, lim);
      StartKeepsDistinct(Run(Initial, before, lim), s, lim);
      assert forall i :: 0 <= i < |t.pics| ==> PocIn(if s.UnmarkAll() then {} else SequencePocs(before))(t.pics[i]);
      InsertShape(t, NewPic(s));
      DistinctThroughBumping(Insert(t, NewPic(s)), lim);
    }
  }

  lemma NoneDistinct()
    ensures DistinctPocs([])
  {
  }

  lemma DistinctThroughBumping(st: State, lim: Limits)
    requires DistinctPocs(st.pics)
    ensures DistinctPocs(BumpWhile(st, lim, 0).pics)
  {
    BumpWhileKeepsPairwise(st, lim, 0, PocsDiffer);
  }

  // ---- Streams of NAL units ---------------------------------------------------------------------------

  /** No IRAP picture with NoRaslOutputFlag begins where the bitstream restarts while pictures wait. */
  ghost predicate CleanRestarts(ns: seq<Nal>, lim: Limits) {
    ns == [] ||
    var before, n := ns[..|ns| - 1], ns[|ns| - 1];
    && CleanRestarts(before, lim)
    && (StartsPicture(n) && AtRestart(before) && SliceOf(FlagsAfter(before), n).UnmarkAll() ==>
          Count(Play(before, lim).pics, Waiting) == 0)
  }

  lemma {:induction false} CleanNeverOverlaps(ns: seq<Nal>, lim: Limits)
    requires CleanRestarts(ns, lim)
    ensures NeverOverlaps(Pictures(ns), lim)
  {
    if ns != [] {
      var before, n := ns[..|ns| - 1], ns[|ns| - 1];
      CleanNeverOverlaps(before, lim);
      NewBitstreamMeaning(before);
      if StartsPicture(n) && !Dropped(FlagsAfter(ns), n) {
        var s := SliceOf(FlagsAfter(before), n);
        assert (Pictures(before) + [s])[..|Pictures(before)|] == Pictures(before);
      }
    }
  }

  /** Over every stream of NAL units whose sequences have distinct order counts: the stored order counts are distinct,
      so marking is exact, as long as no bitstream restarts over waiting pictures. */
  lemma StreamKeepsDistinct(ns: seq<Nal>, lim: Limits)
    requires DistinctInSequences(Pictures(ns)) && CleanRestarts(ns, lim)
    ensures DistinctPocs(Play(ns, lim).pics)
  {
    CleanNeverOverlaps(ns, lim);
    RunKeepsDistinct(Pictures(ns), lim);
  }

  // ---- Output order at a restart ------------------------------------------------------------------------

  /** At a restart the round after the new picture outputs first what is lowest among it and those that still wait. */
  lemma RestartLowest(st: State, s: Slice, lim: Limits)
    requires Quiet(st, lim) && s.UnmarkAll() && s.newBitstream && s.outputFlag
    requires var r := Insert(Start(st, s, lim), NewPic(s));
             NeedsBump(r.pics, lim.maxNumPics, lim.reorder, lim.latency, 0)
    ensures var t := Start(st, s, lim);
            var r, out := Insert(t, NewPic(s)), Step(st, s, lim).emitted;
            var i := Lowest(r.pics);
            && |r.pics| == |t.pics| + 1 && i >= 0
            && t.emitted + [r.pics[i].(needed := false)] <= out
            && (i == |t.pics| <==> forall k :: 0 <= k < |t.pics| ==> s.poc < t.pics[k].poc)
  {
    hide Start, Marked, Quiet, NeedsBump;
    var t := Start(st, s, lim);
    var r := Insert(t, NewPic(s));
    StartOnlyWaits(st, s, lim);
    FilterAll(t.pics, |t.pics|, InUse);
    assert r.pics == Map(t.pics, Aged) + [Stored(NewPic(s))] && r.emitted == t.emitted;
    assert forall k :: 0 <= k < |t.pics| ==> Waiting(t.pics[k]) && r.pics[k] == Aged(t.pics[k]);
    assert r.pics[|t.pics|].needed;
    BumpWhileUnfolds(r, lim, 0);
    BumpWhileHistory(BumpOnce(r, false), lim, 0);
    assert Step(st, s, lim) == BumpWhile(BumpOnce(r, false), lim, 0);
  }

  function UpTo(poc: int): Pic -> bool { (p: Pic) => p.poc <= poc }

  /** Bumping takes those of lowest order count first. */
  lemma {:induction false} BumpingTakesLowest(st: State, lim: Limits, buffering: nat, poc: int)
    requires OnlyWaiting(st.pics, lim)
    ensures var left := BumpWhile(st, lim, buffering).pics;
            var gone := |st.pics| - |left|;
            && gone >= 0
            && Count(left, WaitingAnd(UpTo(poc)))
            == (if Count(st.pics, WaitingAnd(UpTo(poc))) <= gone then 0
                else Count(st.pics, WaitingAnd(UpTo(poc))) - gone)
    decreases |st.pics|
  {
    hide NeedsBump, OnlyWaiting, Count, Output;
    var q := WaitingAnd(UpTo(poc));
    BumpWhileUnfolds(st, lim, buffering);
    if NeedsBump(st.pics, lim.maxNumPics, lim.reorder, lim.latency, buffering) && Lowest(st.pics) >= 0 {
      OutputOnlyWaiting(st.pics, Lowest(st.pics), lim);
      BumpingTakesLowest(BumpOnce(st, false), lim, buffering, poc);
      LowestLeaves(st.pics, lim, poc);
    }
  }

  lemma LowestLeaves(pics: seq<Pic>, lim: Limits, poc: int)
    requires OnlyWaiting(pics, lim) && Lowest(pics) >= 0
    ensures var n := Count(pics, WaitingAnd(UpTo(poc)));
            Count(Output(pics, Lowest(pics), false), WaitingAnd(UpTo(poc))) == if n == 0 then 0 else n - 1
  {
    var q, i := WaitingAnd(UpTo(poc)), Lowest(pics);
    OutputCount(pics, i, false, q);
    assert JustWaits(lim.latency)(pics[i]);
    CountAll(pics, q, |pics|);
  }

  /** What a restart leaves of the pictures up to an order count: all but those that had to make room. */
  lemma RestartLeaves(st: State, s: Slice, lim: Limits, poc: int)
    requires Quiet(st, lim) && s.UnmarkAll() && s.newBitstream
    ensures var waiting, low := Count(st.pics, Waiting), Count(st.pics, WaitingAnd(UpTo(poc)));
            var gone := if waiting <= lim.bufferingMinus1 then 0 else waiting - lim.bufferingMinus1;
            && Each(Start(st, s, lim).pics, Waiting)
            && Count(Start(st, s, lim).pics, WaitingAnd(UpTo(poc))) == if low <= gone then 0 else low - gone
  {
    hide Start, Marked, Quiet, OnlyWaiting, NeedsBump, Count, BumpWhile, Each;
    StartOnlyWaits(st, s, lim);
    CleanedWaits(st, s, lim);
    MarkedCount(st.pics, s, UpTo(poc));
    IrapFinds(st, s, lim);
    StartBumps(st, s, lim);
    assert Start(st, s, lim) == BumpWhile(Cleaned(st, s), lim, lim.bufferingMinus1 + 1);
    BumpingTakesLowest(Cleaned(st, s), lim, lim.bufferingMinus1 + 1, poc);
  }

  lemma NoneUpTo(pics: seq<Pic>, poc: int)
    requires Each(pics, Waiting)
    ensures Count(pics, WaitingAnd(UpTo(poc))) == 0 <==> forall k :: 0 <= k < |pics| ==> poc < pics[k].poc
  {
    CountAll(pics, WaitingAnd(UpTo(poc)), |pics|);
    assert forall k :: 0 <= k < |pics| ==> Waiting(pics[k]);
  }

  /** When nothing asks for output, nothing leaves. */
  lemma RestartRound(st: State, s: Slice, lim: Limits)
    requires !(var r := Insert(Start(st, s, lim), NewPic(s));
               NeedsBump(r.pics, lim.maxNumPics, lim.reorder, lim.latency, 0))
    ensures Step(st, s, lim).emitted == Start(st, s, lim).emitted
  {
    hide Start, NeedsBump;
    BumpWhileUnfolds(Insert(Start(st, s, lim), NewPic(s)), lim, 0);
  }

  function OtherId(id: nat): Pic -> bool { (p: Pic) => p.id != id }

  lemma StartKeepsOthers(st: State, s: Slice, lim: Limits, id: nat)
    requires Each(st.pics, OtherId(id))
    ensures Each(Start(st, s, lim).pics, OtherId(id))
  {
    hide Start, Marked;
    forall i | 0 <= i < |st.pics|
      ensures OtherId(id)(Marked(st.pics, s)[i])
    {
      MarkedKeeps(st.pics, s, i);
    }
    StartKeepsEach(st, s, lim, OtherId(id));
  }

  /** Over every stream, at an IRAP picture that restarts the bitstream: when its round outputs anything, the new
      picture is first, before every picture of the bitstream before that still waits, if and only if the waiting
      pictures of its order count or below are no more than had to make room for it. */
  lemma RestartOvertakesIff(ns: seq<Nal>, n: Nal, lim: Limits)
    requires StartsPicture(n) && n.header.picOutput && AtRestart(ns)
    requires H265Poc.IsIrap(n.nalType) && NoRaslOutput(FlagsAfter(ns), n.nalType)
    requires Each(Play(ns, lim).pics, OtherId(n.header.id))
    ensures var st, t := Play(ns, lim), Start(Play(ns, lim), SliceOf(FlagsAfter(ns), n), lim);
            var waiting, out := Count(st.pics, Waiting), Play(ns + [n], lim).emitted;
            && t.emitted <= out
            && (|out| > |t.emitted| ==>
                  (out[|t.emitted|].id == n.header.id <==>
                    Count(st.pics, WaitingAnd(UpTo(n.header.poc)))
                      <= if waiting <= lim.bufferingMinus1 then 0 else waiting - lim.bufferingMinus1))
  {
    hide Start, Run, Step, Quiet, Count, NeedsBump, Insert;
    var st, s := Play(ns, lim), SliceOf(FlagsAfter(ns), n);
    var t := Start(st, s, lim);
    var r := Insert(t, NewPic(s));
    NewBitstreamMeaning(ns);
    RunQuiet(Pictures(ns), lim);
    IrapIsDecoded(ns, n);
    RunMore(Pictures(ns), s, lim);
    RestartLeaves(st, s, lim, s.poc);
    NoneUpTo(t.pics, s.poc);
    StartKeepsOthers(st, s, lim, s.id);
    if NeedsBump(r.pics, lim.maxNumPics, lim.reorder, lim.latency, 0) {
      RestartLowest(st, s, lim);
      InsertedIds(t, s, Lowest(r.pics));
    } else {
      RestartRound(st, s, lim);
    }
  }

  lemma InsertedIds(t: State, s: Slice, i: nat)
    requires Each(t.pics, OtherId(s.id)) && Each(t.pics, Waiting) && i < |Insert(t, NewPic(s)).pics|
    ensures Insert(t, NewPic(s)).pics[i].id == s.id <==> i == |t.pics|
  {
    FilterAll(t.pics, |t.pics|, InUse);
    assert forall k :: 0 <= k < |t.pics| ==> OtherId(s.id)(t.pics[k]);
  }

  /** An IRAP picture is never dropped. */
  lemma IrapIsDecoded(ns: seq<Nal>, n: Nal)
    requires StartsPicture(n) && H265Poc.IsIrap(n.nalType)
    ensures Pictures(ns + [n]) == Pictures(ns) + [SliceOf(FlagsAfter(ns), n)]
  {
    hide SliceOf;
    assert (ns + [n])[..|ns|] == ns && !IsRasl(n.nalType);
  }

  lemma RunMore(ss: seq<Slice>, s: Slice, lim: Limits)
    ensures Run(Initial, ss + [s], lim) == Step(Run(Initial, ss, lim), s, lim)
  {
    hide Step;
    assert (ss + [s])[..|ss|] == ss;
  }

  lemma StartOnlyWaits(st: State, s: Slice, lim: Limits)
    requires Quiet(st, lim) && s.UnmarkAll() && s.newBitstream
    ensures Each(Start(st, s, lim).pics, Waiting)
  {
    hide Marked, Quiet, NeedsBump, OnlyWaiting;
    CleanedWaits(st, s, lim);
    StartBumps(st, s, lim);
    BumpingKeepsWaiting(Cleaned(st, s), lim, lim.bufferingMinus1 + 1);
  }

  lemma {:induction false} BumpingKeepsWaiting(st: State, lim: Limits, buffering: nat)
    requires OnlyWaiting(st.pics, lim)
    ensures Each(BumpWhile(st, lim, buffering).pics, Waiting)
    decreases |st.pics|
  {
    hide NeedsBump;
    BumpWhileUnfolds(st, lim, buffering);
    if NeedsBump(st.pics, lim.maxNumPics, lim.reorder, lim.latency, buffering) && Lowest(st.pics) >= 0 {
      OutputOnlyWaiting(st.pics, Lowest(st.pics), lim);
      BumpingKeepsWaiting(BumpOnce(st, false), lim, buffering);
    } else {
      assert forall i :: 0 <= i < |st.pics| ==> JustWaits(lim.latency)(st.pics[i]);
    }
  }

  const ONE_REORDERED := Limits(16, 1, 0, 4)

  /** A picture of the first bitstream that comes after the IDR picture in output order. */
  function NextSlice(id: nat): Nal {
    SliceNal(1, Header(true, id, 1, 1, true, Rps([], [], [0], [], []), false))
  }

  function IsPicture(id: nat, poc: int): Pic -> bool { (p: Pic) => p.needed ==> p.id == id && p.poc == poc }

  lemma StartWithOne(st: State, s: Slice)
    requires |st.pics| == 1 && st.pics[0].needed && !s.UnmarkAll()
    ensures var t := Start(st, s, ONE_REORDERED);
            && |t.pics| == 1 && t.pics[0].needed && t.pics[0].id == st.pics[0].id && t.pics[0].poc == st.pics[0].poc
            && t.emitted == st.emitted
  {
    hide Mark, Marked;
    var m := Marked(st.pics, s);
    MarkedKeeps(st.pics, s, 0);
    FilterAll(m, 1, InUse);
    StartBumps(st, s, ONE_REORDERED);
    BumpWhileUnfolds(Cleaned(st, s), ONE_REORDERED, 5);
    assert Count(m, Waiting) <= 1;
  }

  /** The waiting picture leaves when a later one joins it. */
  lemma FinishWithOne(st: State, s: Slice)
    requires |st.pics| == 1 && st.pics[0].needed && s.outputFlag
    ensures var r, p, n := Finish(st, s, ONE_REORDERED), st.pics[0], NewPic(s);
            var first, second := if n.poc < p.poc then n else p, if n.poc < p.poc then p else n;
            && |r.emitted| == |st.emitted| + 1 && st.emitted <= r.emitted
            && r.emitted[|st.emitted|].id == first.id && r.emitted[|st.emitted|].poc == first.poc
            && Count(r.pics, Waiting) == 1 && Each(r.pics, IsPicture(second.id, second.poc))
  {
    FilterAll(st.pics, 1, InUse);
    var r := Insert(st, NewPic(s));
    assert r.pics == [Aged(st.pics[0]), Stored(NewPic(s))];
    assert Count(r.pics[..1], Waiting) == 1;
    CountAppend(r.pics[..1], r.pics[1], Waiting);
    assert r.pics == r.pics[..1] + [r.pics[1]];
    BumpWhileUnfolds(r, ONE_REORDERED, 0);
    var b := BumpOnce(r, false);
    BumpWhileUnfolds(b, ONE_REORDERED, 0);
  }

  /** IDR, a picture after it, end of bitstream, IDR: the second IDR picture is output while the picture of the first
      bitstream still waits. */
  lemma RestartOvertakes()
    ensures var r := Play([IdrSlice(0), NextSlice(1), EndOfBitstream, IdrSlice(2)], ONE_REORDERED);
            && |r.emitted| == 2 && r.emitted[0].id == 0 && r.emitted[1].id == 2
            && Count(r.pics, Waiting) == 1 && Each(r.pics, IsPicture(1, 1))
  {
    hide Start, Finish, Run;
    var a, b, c := IdrSlice(0), NextSlice(1), IdrSlice(2);
    FourNals(a, b, c);
    var x, y := SliceOf(FlagsAfter([]), a), SliceOf(FlagsAfter([a]), b);
    var z := SliceOf(FlagsAfter([a, b, EndOfBitstream]), c);
    FirstWaits(x, ONE_REORDERED);
    RunOfThree(x, y, z, ONE_REORDERED);
    var st := Run(Initial, [x], ONE_REORDERED);
    StartWithOne(st, y);
    FinishWithOne(Start(st, y, ONE_REORDERED), y);
    var st2 := Run(Initial, [x, y], ONE_REORDERED);
    RunQuiet([x, y], ONE_REORDERED);
    RestartWithOne(st2, z, 1, 1);
    FinishWithOne(Start(st2, z, ONE_REORDERED), z);
  }

  lemma RestartWithOne(st: State, s: Slice, id: nat, poc: int)
    requires Quiet(st, ONE_REORDERED) && s.UnmarkAll() && s.newBitstream
    requires Count(st.pics, Waiting) == 1 && Each(st.pics, IsPicture(id, poc))
    ensures var t := Start(st, s, ONE_REORDERED);
            && |t.pics| == 1 && t.pics[0].needed && t.pics[0].id == id && t.pics[0].poc == poc
            && t.emitted == st.emitted
  {
    hide Mark, Marked, Quiet, OnlyWaiting;
    IrapFinds(st, s, ONE_REORDERED);
    StartOnlyWaits(st, s, ONE_REORDERED);
    forall i | 0 <= i < |st.pics|
      ensures IsPicture(id, poc)(Marked(st.pics, s)[i])
    {
      MarkedKeeps(st.pics, s, i);
    }
    StartKeepsEach(st, s, ONE_REORDERED, IsPicture(id, poc));
    CleanedWaits(st, s, ONE_REORDERED);
    StartBumps(st, s, ONE_REORDERED);
    WaitingDecision(Cleaned(st, s).pics, ONE_REORDERED, 5);
    BumpWhileUnfolds(Cleaned(st, s), ONE_REORDERED, 5);
  }

  lemma FourNals(a: Nal, b: Nal, c: Nal)
    requires a == IdrSlice(0) && b == NextSlice(1) && c == IdrSlice(2)
    ensures var x, y := SliceOf(FlagsAfter([]), a), SliceOf(FlagsAfter([a]), b);
            var z := SliceOf(FlagsAfter([a, b, EndOfBitstream]), c);
            && Pictures([a, b, EndOfBitstream, c]) == [x, y, z]
            && x.outputFlag && !y.UnmarkAll() && z.UnmarkAll() && z.newBitstream
  {
    assert [a][..0] == [] && [a, b][..1] == [a] && [a, b, EndOfBitstream][..2] == [a, b];
    assert [a, b, EndOfBitstream, c][..3] == [a, b, EndOfBitstream];
    assert Pictures([]) == [];
    assert Pictures([a]) == [SliceOf(FlagsAfter([]), a)];
    assert !FlagsAfter([a]).newBitstream && !FlagsAfter([a]).prevNalIsEos;
    assert Pictures([a, b]) == Pictures([a]) + [SliceOf(FlagsAfter([a]), b)];
    assert Pictures([a, b, EndOfBitstream]) == Pictures([a, b]);
  }

  lemma RunOfThree(x: Slice, y: Slice, z: Slice, lim: Limits)
    ensures Run(Initial, [x, y], lim) == Step(Run(Initial, [x], lim), y, lim)
    ensures Run(Initial, [x, y, z], lim) == Step(Run(Initial, [x, y], lim), z, lim)
  {
    hide Step;
    assert [x, y][..1] == [x] && [x, y, z][..2] == [x, y];
  }
}
