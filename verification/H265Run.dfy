/** What holds over every run of the H.265 decoding loop. */
module H265Run {
  import opened Seqs
  import opened H265DpbSpec
  import opened H265Marking
  import opened H265Machine

  // ---- Conservation -------------------------------------------------------------------------

  /** q looks only at what marking, ageing and output leave alone. */
  ghost predicate Stable(q: Pic -> bool) {
    forall a: Pic, b: Pic :: a.id == b.id && a.poc == b.poc ==> q(a) == q(b)
  }

  function WaitingAnd(q: Pic -> bool): Pic -> bool { (p: Pic) => p.needed && q(p) }

  function OutputAnd(q: Pic -> bool): Pic -> bool { (p: Pic) => p.outputFlag && q(p) }

  /** What is out and what still waits, counted by q. */
  function Balance(st: State, q: Pic -> bool): nat {
    Count(st.emitted, q) + Count(st.pics, WaitingAnd(q))
  }

  /** Every finished output picture is emitted, waiting or discarded, whichever property q picks it out by. */
  ghost predicate Conserved(st: State, q: Pic -> bool) {
    Count(st.finished, OutputAnd(q)) == Balance(st, q) + Count(st.discarded, q)
  }

  lemma BumpOnceConserves(st: State, drain: bool, q: Pic -> bool)
    requires Lowest(st.pics) >= 0 && Stable(q)
    ensures Balance(BumpOnce(st, drain), q) == Balance(st, q)
  {
    var i := Lowest(st.pics);
    OutputCount(st.pics, i, drain, WaitingAnd(q));
    CountAppend(st.emitted, st.pics[i].(needed := false), q);
  }

  lemma {:induction false} BumpWhileConserves(st: State, lim: Limits, buffering: nat, q: Pic -> bool)
    requires Stable(q)
    ensures var r := BumpWhile(st, lim, buffering);
            Balance(r, q) == Balance(st, q) && r.finished == st.finished && r.discarded == st.discarded
    decreases Count(st.pics, Waiting)
  {
    if NeedsBump(st.pics, lim.maxNumPics, lim.reorder, lim.latency, buffering) && Lowest(st.pics) >= 0 {
      BumpOnceConserves(st, false, q);
      BumpWhileConserves(BumpOnce(st, false), lim, buffering, q);
    }
  }

  lemma {:induction false} BumpAllConserves(st: State, drain: bool, q: Pic -> bool)
    requires Stable(q)
    ensures var r := BumpAll(st, drain);
            && Balance(r, q) == Balance(st, q) && Balance(r, q) == Count(r.emitted, q)
            && r.finished == st.finished && r.discarded == st.discarded
    decreases Count(st.pics, Waiting)
  {
    if Lowest(st.pics) >= 0 {
      BumpOnceConserves(st, drain, q);
      BumpAllConserves(BumpOnce(st, drain), drain, q);
    } else {
      CountAll(st.pics, WaitingAnd(q), |st.pics|);
    }
  }

  /** Marking touches only the reference flags. */
  lemma MarkedKeeps(pics: seq<Pic>, s: Slice, i: nat)
    requires i < |pics|
    ensures Marked(pics, s)[i] == pics[i].(ref := Marked(pics, s)[i].ref, longTerm := Marked(pics, s)[i].longTerm)
    ensures Rank(pics[i]) <= Rank(Marked(pics, s)[i])
    ensures s.UnmarkAll() ==> !Marked(pics, s)[i].ref
  {
    var u := Unmarked(pics, s);
    MarkKeepsNamedPocs(u, s.rps, i);
    MarkIsOneWay(u, s.rps, i);
  }

  lemma MarkedCount(pics: seq<Pic>, s: Slice, q: Pic -> bool)
    requires Stable(q)
    ensures Count(Marked(pics, s), WaitingAnd(q)) == Count(pics, WaitingAnd(q))
    ensures Count(DeleteUnused(Marked(pics, s)), WaitingAnd(q)) == Count(pics, WaitingAnd(q))
  {
    var m := Marked(pics, s);
    forall i | 0 <= i < |m|
      ensures WaitingAnd(q)(m[i]) == WaitingAnd(q)(pics[i])
    {
      MarkedKeeps(pics, s, i);
    }
    CountSame(m, WaitingAnd(q), pics, WaitingAnd(q), |m|);
    CountFilter(m, InUse, WaitingAnd(q));
  }

  lemma StartConserves(st: State, s: Slice, lim: Limits, q: Pic -> bool)
    requires Stable(q) && Conserved(st, q)
    ensures Conserved(Start(st, s, lim), q)
  {
    hide Marked;
    MarkedCount(st.pics, s, q);
    if s.ClearDpb() && s.noOutputOfPriorPics {
      var m := st.(pics := Marked(st.pics, s));
      BumpAllConserves(m.(emitted := []), true, q);
      CountConcat(st.discarded, BumpAll(m.(emitted := []), true).emitted, q);
    } else if s.ClearDpb() {
      BumpAllConserves(Cleaned(st, s), false, q);
    } else {
      BumpWhileConserves(Cleaned(st, s), lim, lim.bufferingMinus1 + 1, q);
    }
  }

  lemma InsertConserves(st: State, p: Pic, q: Pic -> bool)
    requires Stable(q) && Conserved(st, q)
    ensures Conserved(Insert(st, p), q)
  {
    var d := DeleteUnused(st.pics);
    CountFilter(st.pics, InUse, WaitingAnd(q));
    CountSame(d, WaitingAnd(q), Map(d, Aged), WaitingAnd(q), |d|);
    CountAppend(if p.outputFlag then Map(d, Aged) else d, Stored(p), WaitingAnd(q));
    CountAppend(st.finished, p, OutputAnd(q));
  }

  lemma StepConserves(st: State, s: Slice, lim: Limits, q: Pic -> bool)
    requires Stable(q) && Conserved(st, q)
    ensures Conserved(Step(st, s, lim), q)
  {
    StartConserves(st, s, lim, q);
    InsertConserves(Start(st, s, lim), NewPic(s), q);
    BumpWhileConserves(Insert(Start(st, s, lim), NewPic(s)), lim, 0, q);
  }

  lemma {:induction false} RunConserves(ss: seq<Slice>, lim: Limits, q: Pic -> bool)
    requires Stable(q)
    ensures Conserved(Run(Initial, ss, lim), q)
  {
    if ss != [] {
      RunConserves(ss[..|ss| - 1], lim, q);
      StepConserves(Run(Initial, ss[..|ss| - 1], lim), ss[|ss| - 1], lim, q);
    }
  }

  lemma StartBumps(st: State, s: Slice, lim: Limits)
    ensures !s.ClearDpb() ==> Start(st, s, lim) == BumpWhile(Cleaned(st, s), lim, lim.bufferingMinus1 + 1)
    ensures s.ClearDpb() && !s.noOutputOfPriorPics ==> Start(st, s, lim) == BumpAll(Cleaned(st, s), false)
  {
    hide Marked;
  }

  // ---- Facts about one bumping loop ------------------------------------------------------------

  /** Output only adds to what is out. */
  lemma {:induction false} BumpAllHistory(st: State, drain: bool)
    ensures var r := BumpAll(st, drain);
            st.emitted <= r.emitted && r.discarded == st.discarded && r.finished == st.finished
    decreases Count(st.pics, Waiting)
  {
    if Lowest(st.pics) >= 0 {
      BumpAllHistory(BumpOnce(st, drain), drain);
    }
  }

  lemma {:induction false} BumpWhileHistory(st: State, lim: Limits, buffering: nat)
    ensures var r := BumpWhile(st, lim, buffering);
            st.emitted <= r.emitted && r.discarded == st.discarded && r.finished == st.finished
    decreases Count(st.pics, Waiting)
  {
    hide NeedsBump;
    if NeedsBump(st.pics, lim.maxNumPics, lim.reorder, lim.latency, buffering) && Lowest(st.pics) >= 0 {
      BumpWhileHistory(BumpOnce(st, false), lim, buffering);
    }
  }

  ghost predicate Each(pics: seq<Pic>, h: Pic -> bool) {
    forall i :: 0 <= i < |pics| ==> h(pics[i])
  }

  /** h survives being output. */
  ghost predicate Settled(h: Pic -> bool) {
    forall p: Pic :: h(p) ==> h(p.(needed := false))
  }

  lemma {:induction false} BumpWhileKeepsEach(st: State, lim: Limits, buffering: nat, h: Pic -> bool)
    requires Settled(h) && Each(st.pics, h)
    ensures Each(BumpWhile(st, lim, buffering).pics, h)
    decreases Count(st.pics, Waiting)
  {
    if NeedsBump(st.pics, lim.maxNumPics, lim.reorder, lim.latency, buffering) && Lowest(st.pics) >= 0 {
      BumpWhileKeepsEach(BumpOnce(st, false), lim, buffering, h);
    }
  }

  lemma {:induction false} BumpAllKeepsEach(st: State, drain: bool, h: Pic -> bool)
    requires Settled(h) && Each(st.pics, h)
    ensures Each(BumpAll(st, drain).pics, h)
    decreases Count(st.pics, Waiting)
  {
    if Lowest(st.pics) >= 0 {
      BumpAllKeepsEach(BumpOnce(st, drain), drain, h);
    }
  }

  /** rel does not depend on the order of its arguments, nor on what waits. */
  ghost predicate SettledRelation(rel: (Pic, Pic) -> bool) {
    forall a: Pic, b: Pic :: rel(a, b) ==>
      rel(b, a) && rel(a.(needed := false), b) && rel(a, b.(needed := false))
  }

  lemma OutputKeepsPairwise(pics: seq<Pic>, i: nat, drain: bool, rel: (Pic, Pic) -> bool)
    requires i < |pics| && SettledRelation(rel) && Pairwise(pics, rel)
    ensures Pairwise(Output(pics, i, drain), rel)
  {
    var m := pics[i := pics[i].(needed := false)];
    assert Pairwise(m, rel);
    forall a, b | 0 <= a < b < |m| - 1
      ensures rel(RemoveFast(m, i)[a], RemoveFast(m, i)[b])
    {
      assert rel(m[a], m[b]);
      assert rel(m[a], m[|m| - 1]) && rel(m[b], m[|m| - 1]);
    }
  }

  lemma {:induction false} BumpWhileKeepsPairwise(st: State, lim: Limits, buffering: nat, rel: (Pic, Pic) -> bool)
    requires SettledRelation(rel) && Pairwise(st.pics, rel)
    ensures Pairwise(BumpWhile(st, lim, buffering).pics, rel)
    decreases Count(st.pics, Waiting)
  {
    if NeedsBump(st.pics, lim.maxNumPics, lim.reorder, lim.latency, buffering) && Lowest(st.pics) >= 0 {
      OutputKeepsPairwise(st.pics, Lowest(st.pics), false, rel);
      BumpWhileKeepsPairwise(BumpOnce(st, false), lim, buffering, rel);
    }
  }

  lemma {:induction false} BumpAllKeepsPairwise(st: State, drain: bool, rel: (Pic, Pic) -> bool)
    requires SettledRelation(rel) && Pairwise(st.pics, rel)
    ensures Pairwise(BumpAll(st, drain).pics, rel)
    decreases Count(st.pics, Waiting)
  {
    if Lowest(st.pics) >= 0 {
      OutputKeepsPairwise(st.pics, Lowest(st.pics), drain, rel);
      BumpAllKeepsPairwise(BumpOnce(st, drain), drain, rel);
    }
  }

  lemma OutputShape(pics: seq<Pic>, i: nat, drain: bool)
    requires i < |pics|
    ensures var r := Output(pics, i, drain);
            && |r| <= |pics|
            && Count(r, Referenced) <= Count(pics, Referenced)
            && (!drain ==> Count(r, Referenced) == Count(pics, Referenced))
            && (Each(pics, InUse) ==> Each(r, InUse))
  {
    OutputCount(pics, i, drain, Referenced);
  }

  lemma {:induction false} BumpWhileShape(st: State, lim: Limits, buffering: nat)
    ensures var r := BumpWhile(st, lim, buffering);
            && |r.pics| <= |st.pics|
            && Count(r.pics, Referenced) == Count(st.pics, Referenced)
            && (Each(st.pics, InUse) ==> Each(r.pics, InUse))
            && (NeedsBump(r.pics, lim.maxNumPics, lim.reorder, lim.latency, buffering) ==> Lowest(r.pics) < 0)
            && r.finished == st.finished && r.discarded == st.discarded
    decreases Count(st.pics, Waiting)
  {
    if NeedsBump(st.pics, lim.maxNumPics, lim.reorder, lim.latency, buffering) && Lowest(st.pics) >= 0 {
      OutputShape(st.pics, Lowest(st.pics), false);
      BumpWhileShape(BumpOnce(st, false), lim, buffering);
    }
  }

  lemma {:induction false} BumpAllShape(st: State, drain: bool)
    ensures var r := BumpAll(st, drain);
            && Lowest(r.pics) < 0
            && (Each(st.pics, InUse) ==> Each(r.pics, InUse))
            && Count(r.pics, Referenced) <= Count(st.pics, Referenced)
            && r.finished == st.finished && r.discarded == st.discarded
    decreases Count(st.pics, Waiting)
  {
    if Lowest(st.pics) >= 0 {
      OutputShape(st.pics, Lowest(st.pics), drain);
      BumpAllShape(BumpOnce(st, drain), drain);
    }
  }

  lemma FilterEach(pics: seq<Pic>, p: Pic -> bool, h: Pic -> bool)
    requires Each(pics, h)
    ensures Each(Filter(pics, p), h) && Each(Filter(pics, p), p)
  {
    FilterMembers(pics, |pics|, p);
    forall i | 0 <= i < |Filter(pics, p)|
      ensures h(Filter(pics, p)[i]) && p(Filter(pics, p)[i])
    {
      assert Filter(pics, p)[i] in pics[..|pics|];
    }
  }

  function Anything(p: Pic): bool { true }

  // ---- Capacity ---------------------------------------------------------------------------------

  lemma MarkedDistinct(pics: seq<Pic>, s: Slice)
    requires DistinctPocs(pics)
    ensures DistinctPocs(Marked(pics, s)) && Count(Marked(pics, s), Referenced) <= Size(s.rps)
  {
    forall i | 0 <= i < |pics|
      ensures Marked(pics, s)[i].poc == pics[i].poc
    {
      MarkedKeeps(pics, s, i);
    }
    MarkBoundsReferences(Unmarked(pics, s), s.rps);
  }

  lemma OnlyReferencesLeft(pics: seq<Pic>)
    requires Each(pics, InUse) && Lowest(pics) < 0
    ensures |pics| == Count(pics, Referenced)
  {
    CountAll(pics, Referenced, |pics|);
  }

  /** On a picture that clears the buffer nothing is left: the warning about leftover pictures is unreachable. */
  lemma ClearLeavesNothing(st: State, s: Slice, lim: Limits)
    requires s.ClearDpb()
    ensures Start(st, s, lim).pics == []
  {
    var m := Marked(st.pics, s);
    forall i | 0 <= i < |m|
      ensures !m[i].ref
    {
      MarkedKeeps(st.pics, s, i);
    }
    if !s.noOutputOfPriorPics {
      CountAll(m, Referenced, |m|);
      CleanedShape(st, s);
      BumpAllShape(Cleaned(st, s), false);
      OnlyReferencesLeft(BumpAll(Cleaned(st, s), false).pics);
    }
  }

  lemma CleanedShape(st: State, s: Slice)
    ensures Each(Cleaned(st, s).pics, InUse)
    ensures Count(Cleaned(st, s).pics, Referenced) == Count(Marked(st.pics, s), Referenced)
    ensures DistinctPocs(st.pics) ==>
              DistinctPocs(Cleaned(st, s).pics) && Count(Cleaned(st, s).pics, Referenced) <= Size(s.rps)
  {
    var m := Marked(st.pics, s);
    CountFilter(m, InUse, Referenced);
    FilterEach(m, InUse, Anything);
    if DistinctPocs(st.pics) {
      MarkedDistinct(st.pics, s);
      FilterPairwise(m, |m|, InUse, PocsDiffer);
    }
  }

  /** Before decoding the buffer has room for one more picture than its references take. */
  lemma StartMakesRoom(st: State, s: Slice, lim: Limits)
    requires DistinctPocs(st.pics) && Size(s.rps) <= lim.bufferingMinus1
    ensures |Start(st, s, lim).pics| <= lim.bufferingMinus1
    ensures DistinctPocs(Start(st, s, lim).pics)
  {
    if s.ClearDpb() {
      ClearLeavesNothing(st, s, lim);
    } else {
      CleanedShape(st, s);
      StartBumps(st, s, lim);
      BumpingMakesRoom(Cleaned(st, s), lim, lim.bufferingMinus1 + 1);
    }
  }

  /** Before decoding order counts stay distinct and the references are no more than the slice names. */
  lemma StartKeepsDistinct(st: State, s: Slice, lim: Limits)
    requires DistinctPocs(st.pics)
    ensures DistinctPocs(Start(st, s, lim).pics) && Count(Start(st, s, lim).pics, Referenced) <= Size(s.rps)
  {
    if s.ClearDpb() {
      ClearLeavesNothing(st, s, lim);
    } else {
      CleanedShape(st, s);
      StartBumps(st, s, lim);
      BumpWhileShape(Cleaned(st, s), lim, lim.bufferingMinus1 + 1);
      BumpWhileKeepsPairwise(Cleaned(st, s), lim, lim.bufferingMinus1 + 1, PocsDiffer);
    }
  }

  lemma BumpingMakesRoom(st: State, lim: Limits, buffering: nat)
    requires DistinctPocs(st.pics) && Each(st.pics, InUse) && Count(st.pics, Referenced) < buffering
    ensures |BumpWhile(st, lim, buffering).pics| < buffering && DistinctPocs(BumpWhile(st, lim, buffering).pics)
  {
    BumpWhileShape(st, lim, buffering);
    BumpWhileKeepsPairwise(st, lim, buffering, PocsDiffer);
    if Lowest(BumpWhile(st, lim, buffering).pics) < 0 {
      OnlyReferencesLeft(BumpWhile(st, lim, buffering).pics);
    }
  }

  lemma InsertShape(st: State, p: Pic)
    requires DistinctPocs(st.pics)
    requires forall i :: 0 <= i < |st.pics| ==> st.pics[i].poc != p.poc
    ensures |Insert(st, p).pics| <= |st.pics| + 1 && DistinctPocs(Insert(st, p).pics)
  {
    var d := DeleteUnused(st.pics);
    FilterPairwise(st.pics, |st.pics|, InUse, PocsDiffer);
    FilterMembers(st.pics, |st.pics|, InUse);
    forall i | 0 <= i < |d|
      ensures d[i].poc != p.poc
    {
      assert d[i] in st.pics[..|st.pics|];
    }
  }

  lemma StepKeepsCapacity(st: State, s: Slice, lim: Limits)
    requires DistinctPocs(st.pics) && Size(s.rps) <= lim.bufferingMinus1
    requires forall i :: 0 <= i < |Start(st, s, lim).pics| ==> Start(st, s, lim).pics[i].poc != s.poc
    ensures |Step(st, s, lim).pics| <= lim.bufferingMinus1 + 1
    ensures DistinctPocs(Step(st, s, lim).pics)
  {
    hide Marked;
    StartMakesRoom(st, s, lim);
    InsertShape(Start(st, s, lim), NewPic(s));
    BumpWhileShape(Insert(Start(st, s, lim), NewPic(s)), lim, 0);
    BumpWhileKeepsPairwise(Insert(Start(st, s, lim), NewPic(s)), lim, 0, PocsDiffer);
  }

  /** What a stream must do: name no more pictures than the buffer holds beside the current one, and reuse
      no order count that is still stored. */
  ghost predicate Admissible(ss: seq<Slice>, lim: Limits) {
    ss == [] ||
    var before, s := ss[..|ss| - 1], ss[|ss| - 1];
    && Admissible(before, lim)
    && Size(s.rps) <= lim.bufferingMinus1
    && forall p :: p in Start(Run(Initial, before, lim), s, lim).pics ==> p.poc != s.poc
  }

  lemma {:induction false} RunKeepsCapacity(ss: seq<Slice>, lim: Limits)
    requires Admissible(ss, lim)
    ensures |Run(Initial, ss, lim).pics| <= lim.bufferingMinus1 + 1
    ensures DistinctPocs(Run(Initial, ss, lim).pics)
  {
    if ss != [] {
      RunKeepsCapacity(ss[..|ss| - 1], lim);
      StepKeepsCapacity(Run(Initial, ss[..|ss| - 1], lim), ss[|ss| - 1], lim);
    }
  }

  // ---- Latency ------------------------------------------------------------------------------------

  function OutputAfter(id: nat): Pic -> bool { (p: Pic) => p.outputFlag && p.id > id }

  /** The latency count of a waiting picture is the number of output pictures finished after it. */
  function LatencyIs(finished: seq<Pic>): Pic -> bool {
    (p: Pic) => p.needed ==> p.latency == Count(finished, OutputAfter(p.id))
  }

  function IdBelow(bound: nat): Pic -> bool { (p: Pic) => p.id < bound }

  ghost predicate LatencyExact(st: State, bound: nat) {
    && Each(st.pics, LatencyIs(st.finished))
    && Each(st.pics, IdBelow(bound))
    && Each(st.finished, IdBelow(bound))
  }

  lemma CleanedEach(st: State, s: Slice, h: Pic -> bool)
    requires forall i :: 0 <= i < |st.pics| ==> h(Marked(st.pics, s)[i])
    ensures Each(Cleaned(st, s).pics, h)
  {
    FilterEach(Marked(st.pics, s), InUse, h);
  }

  lemma StartKeepsEach(st: State, s: Slice, lim: Limits, h: Pic -> bool)
    requires Settled(h)
    requires forall i :: 0 <= i < |st.pics| ==> h(Marked(st.pics, s)[i])
    ensures Each(Start(st, s, lim).pics, h) && Start(st, s, lim).finished == st.finished
  {
    CleanedEach(st, s, h);
    StartBumps(st, s, lim);
    var c, buffering := Cleaned(st, s), lim.bufferingMinus1 + 1;
    if !s.ClearDpb() {
      BumpWhileKeepsEach(c, lim, buffering, h);
      BumpWhileShape(c, lim, buffering);
    } else if !s.noOutputOfPriorPics {
      BumpAllKeepsEach(c, false, h);
      BumpAllShape(c, false);
    }
  }

  /** The low bits of an order count are kept beside it. */
  function LowBitsKept(max: nat): Pic -> bool
    requires max > 0
  {
    (p: Pic) => p.pocLsb == p.poc % max
  }

  /** When every slice has its low bits right, every stored picture has. */
  lemma {:induction false} RunKeepsLowBits(ss: seq<Slice>, lim: Limits, max: nat)
    requires max > 0 && forall i :: 0 <= i < |ss| ==> ss[i].pocLsb == ss[i].poc % max
    ensures Each(Run(Initial, ss, lim).pics, LowBitsKept(max))
  {
    if ss != [] {
      var st, s := Run(Initial, ss[..|ss| - 1], lim), ss[|ss| - 1];
      RunKeepsLowBits(ss[..|ss| - 1], lim, max);
      forall i | 0 <= i < |st.pics|
        ensures LowBitsKept(max)(Marked(st.pics, s)[i])
      {
        MarkedKeeps(st.pics, s, i);
      }
      StartKeepsEach(st, s, lim, LowBitsKept(max));
      FilterEach(Start(st, s, lim).pics, InUse, LowBitsKept(max));
      BumpWhileKeepsEach(Insert(Start(st, s, lim), NewPic(s)), lim, 0, LowBitsKept(max));
    }
  }

  lemma StartKeepsLatency(st: State, s: Slice, lim: Limits, bound: nat)
    requires LatencyExact(st, bound)
    ensures LatencyExact(Start(st, s, lim), bound)
  {
    forall i | 0 <= i < |st.pics|
      ensures LatencyIs(st.finished)(Marked(st.pics, s)[i]) && IdBelow(bound)(Marked(st.pics, s)[i])
    {
      MarkedKeeps(st.pics, s, i);
    }
    StartKeepsEach(st, s, lim, LatencyIs(st.finished));
    StartKeepsEach(st, s, lim, IdBelow(bound));
  }

  lemma InsertKeepsLatency(st: State, s: Slice)
    requires LatencyExact(st, s.id)
    ensures LatencyExact(Insert(st, NewPic(s)), s.id + 1)
  {
    var d, p, r := DeleteUnused(st.pics), NewPic(s), Insert(st, NewPic(s));
    FilterEach(st.pics, InUse, LatencyIs(st.finished));
    FilterEach(st.pics, InUse, IdBelow(s.id));
    forall i | 0 <= i < |r.pics|
      ensures LatencyIs(r.finished)(r.pics[i])
    {
      CountAppend(st.finished, p, OutputAfter(r.pics[i].id));
      if i == |d| {
        CountAll(r.finished, OutputAfter(s.id), |r.finished|);
      }
    }
  }

  lemma StepKeepsLatency(st: State, s: Slice, lim: Limits)
    requires LatencyExact(st, s.id)
    ensures LatencyExact(Step(st, s, lim), s.id + 1)
    ensures Step(st, s, lim).finished == st.finished + [NewPic(s)]
  {
    StartKeepsLatency(st, s, lim, s.id);
    var t := Insert(Start(st, s, lim), NewPic(s));
    StartKeepsEach(st, s, lim, Anything);
    InsertKeepsLatency(Start(st, s, lim), s);
    BumpWhileShape(t, lim, 0);
    BumpWhileKeepsEach(t, lim, 0, LatencyIs(t.finished));
    BumpWhileKeepsEach(t, lim, 0, IdBelow(s.id + 1));
  }

  ghost predicate IncreasingIds(ss: seq<Slice>) {
    forall i, j :: 0 <= i < j < |ss| ==> ss[i].id < ss[j].id
  }

  lemma LatencyWeaken(st: State, lo: nat, hi: nat)
    requires LatencyExact(st, lo) && lo <= hi
    ensures LatencyExact(st, hi)
  {
  }

  lemma {:induction false} RunKeepsLatency(ss: seq<Slice>, lim: Limits, bound: nat)
    requires IncreasingIds(ss)
    requires ss != [] ==> ss[|ss| - 1].id < bound
    ensures LatencyExact(Run(Initial, ss, lim), bound)
    ensures Run(Initial, ss, lim).finished == Map(ss, NewPic)
  {
    if ss != [] {
      var before, s := ss[..|ss| - 1], ss[|ss| - 1];
      RunKeepsLatency(before, lim, s.id);
      StepKeepsLatency(Run(Initial, before, lim), s, lim);
      MapLast(ss, NewPic);
      LatencyWeaken(Run(Initial, ss, lim), s.id + 1, bound);
    }
  }

  /** After any run a waiting picture has fewer than L output pictures behind it, and at most the reorder limit wait. */
  lemma LatencyGuarantee(ss: seq<Slice>, lim: Limits, p: Pic)
    requires IncreasingIds(ss) && ss != []
    requires p in Run(Initial, ss, lim).pics && p.needed
    ensures p.latency == Count(Map(ss, NewPic), OutputAfter(p.id))
    ensures lim.latency > 0 ==> Count(Map(ss, NewPic), OutputAfter(p.id)) < lim.latency
    ensures Count(Run(Initial, ss, lim).pics, Waiting) <= lim.reorder
    ensures |Run(Initial, ss, lim).pics| <= lim.maxNumPics
  {
    var before, s, r := ss[..|ss| - 1], ss[|ss| - 1], Run(Initial, ss, lim);
    RunKeepsLatency(ss, lim, s.id + 1);
    var i :| 0 <= i < |r.pics| && r.pics[i] == p;
    assert LatencyIs(r.finished)(r.pics[i]);
    var t := Insert(Start(Run(Initial, before, lim), s, lim), NewPic(s));
    BumpWhileShape(t, lim, 0);
    CountAll(r.pics, Waiting, |r.pics|);
    assert LateBy(lim.latency)(r.pics[i]) <==> p.latency >= lim.latency;
  }

  // ---- One-way marking --------------------------------------------------------------------------

  /** The picture is new, or was stored before and has not been marked back. */
  ghost function TracedTo(before: seq<Pic>, added: nat): Pic -> bool {
    (p: Pic) => p.id == added || exists j :: 0 <= j < |before| && before[j].id == p.id && Rank(before[j]) <= Rank(p)
  }

  lemma StartTracesBack(st: State, s: Slice, lim: Limits)
    ensures Each(Start(st, s, lim).pics, TracedTo(st.pics, s.id))
  {
    var h := TracedTo(st.pics, s.id);
    forall i | 0 <= i < |st.pics|
      ensures h(Marked(st.pics, s)[i])
    {
      MarkedKeeps(st.pics, s, i);
    }
    StartKeepsEach(st, s, lim, h);
  }

  lemma FinishTracesBack(st: State, s: Slice, lim: Limits, before: seq<Pic>)
    requires Each(st.pics, TracedTo(before, s.id))
    ensures Each(Finish(st, s, lim).pics, TracedTo(before, s.id))
  {
    var h := TracedTo(before, s.id);
    FilterEach(st.pics, InUse, h);
    BumpWhileKeepsEach(Insert(st, NewPic(s)), lim, 0, h);
  }

  lemma StepTracesBack(st: State, s: Slice, lim: Limits)
    ensures Each(Step(st, s, lim).pics, TracedTo(st.pics, s.id))
  {
    hide Start, Finish;
    StartTracesBack(st, s, lim);
    FinishTracesBack(Start(st, s, lim), s, lim, st.pics);
  }

  predicate IdsDiffer(a: Pic, b: Pic) { a.id != b.id }

  lemma CleanedKeepsIdsDistinct(st: State, s: Slice)
    requires Pairwise(st.pics, IdsDiffer)
    ensures Pairwise(Cleaned(st, s).pics, IdsDiffer)
  {
    hide Mark;
    var m := Marked(st.pics, s);
    forall i | 0 <= i < |st.pics|
      ensures m[i].id == st.pics[i].id
    {
      MarkedKeeps(st.pics, s, i);
    }
    forall i, j | 0 <= i < j < |m|
      ensures IdsDiffer(m[i], m[j])
    {
      assert IdsDiffer(st.pics[i], st.pics[j]);
    }
    FilterPairwise(m, |m|, InUse, IdsDiffer);
  }

  lemma InsertKeepsIdsDistinct(st: State, p: Pic)
    requires Pairwise(st.pics, IdsDiffer) && Each(st.pics, IdBelow(p.id))
    ensures Pairwise(Insert(st, p).pics, IdsDiffer)
  {
    var d := DeleteUnused(st.pics);
    FilterPairwise(st.pics, |st.pics|, InUse, IdsDiffer);
    FilterEach(st.pics, InUse, IdBelow(p.id));
    forall i, j | 0 <= i < j < |d|
      ensures IdsDiffer(Aged(d[i]), Aged(d[j]))
    {
      assert IdsDiffer(d[i], d[j]);
    }
    assert forall i :: 0 <= i < |d| ==> IdBelow(p.id)(d[i]);
  }

  lemma StartKeepsIdsDistinct(st: State, s: Slice, lim: Limits)
    requires Pairwise(st.pics, IdsDiffer) && Each(st.pics, IdBelow(s.id))
    ensures Pairwise(Start(st, s, lim).pics, IdsDiffer) && Each(Start(st, s, lim).pics, IdBelow(s.id))
  {
    hide Marked, Cleaned, Each;
    CleanedKeepsIdsDistinct(st, s);
    StartBumps(st, s, lim);
    if !s.ClearDpb() {
      BumpWhileKeepsPairwise(Cleaned(st, s), lim, lim.bufferingMinus1 + 1, IdsDiffer);
    } else if !s.noOutputOfPriorPics {
      BumpAllKeepsPairwise(Cleaned(st, s), false, IdsDiffer);
    }
    StartKeepsIdsBelow(st, s, lim, s.id);
  }

  lemma StartKeepsIdsBelow(st: State, s: Slice, lim: Limits, bound: nat)
    requires Each(st.pics, IdBelow(bound))
    ensures Each(Start(st, s, lim).pics, IdBelow(bound))
  {
    hide Start, Marked;
    forall i | 0 <= i < |st.pics|
      ensures IdBelow(bound)(Marked(st.pics, s)[i])
    {
      MarkedKeeps(st.pics, s, i);
    }
    StartKeepsEach(st, s, lim, IdBelow(bound));
  }

  lemma StepKeepsIdsDistinct(st: State, s: Slice, lim: Limits)
    requires Pairwise(st.pics, IdsDiffer) && Each(st.pics, IdBelow(s.id))
    ensures Pairwise(Step(st, s, lim).pics, IdsDiffer)
  {
    hide Start, Insert, Each;
    StartKeepsIdsDistinct(st, s, lim);
    InsertKeepsIdsDistinct(Start(st, s, lim), NewPic(s));
    BumpWhileKeepsPairwise(Insert(Start(st, s, lim), NewPic(s)), lim, 0, IdsDiffer);
  }

  lemma {:induction false} RunKeepsIdsDistinct(ss: seq<Slice>, lim: Limits)
    requires IncreasingIds(ss)
    ensures Pairwise(Run(Initial, ss, lim).pics, IdsDiffer)
  {
    if ss != [] {
      var before, s := ss[..|ss| - 1], ss[|ss| - 1];
      RunKeepsIdsDistinct(before, lim);
      RunKeepsLatency(before, lim, s.id);
      StepKeepsIdsDistinct(Run(Initial, before, lim), s, lim);
    }
  }

  lemma {:induction false} RunTracesBack(ss: seq<Slice>, lim: Limits, k: nat, j: nat)
    requires IncreasingIds(ss) && k <= |ss| && j < |Run(Initial, ss, lim).pics|
    ensures var p, earlier := Run(Initial, ss, lim).pics[j], Run(Initial, ss[..k], lim).pics;
            || (exists m :: k <= m < |ss| && ss[m].id == p.id)
            || exists i :: 0 <= i < |earlier| && earlier[i].id == p.id && Rank(earlier[i]) <= Rank(p)
  {
    hide Step;
    if k == |ss| {
      assert ss[..k] == ss;
    } else {
      var before, s := ss[..|ss| - 1], ss[|ss| - 1];
      var prev := Run(Initial, before, lim);
      assert before[..k] == ss[..k];
      StepTracesBack(prev, s, lim);
      var p := Run(Initial, ss, lim).pics[j];
      assert TracedTo(prev.pics, s.id)(p);
      if p.id != s.id {
        var m :| 0 <= m < |prev.pics| && prev.pics[m].id == p.id && Rank(prev.pics[m]) <= Rank(p);
        RunTracesBack(before, lim, k, m);
      }
    }
  }

  /** From any moment of a run to any later one, a stored picture only moves from short-term to long-term to unused. */
  lemma RunIsOneWay(ss: seq<Slice>, lim: Limits, k: nat, i: nat, j: nat)
    requires IncreasingIds(ss) && k <= |ss|
    requires i < |Run(Initial, ss[..k], lim).pics| && j < |Run(Initial, ss, lim).pics|
    requires Run(Initial, ss[..k], lim).pics[i].id == Run(Initial, ss, lim).pics[j].id
    ensures Rank(Run(Initial, ss[..k], lim).pics[i]) <= Rank(Run(Initial, ss, lim).pics[j])
  {
    hide Step;
    var earlier := Run(Initial, ss[..k], lim).pics;
    RunTracesBack(ss, lim, k, j);
    RunKeepsIdsDistinct(ss[..k], lim);
    assert forall m :: 0 <= m < |earlier| && m != i ==>
             if m < i then IdsDiffer(earlier[m], earlier[i]) else IdsDiffer(earlier[i], earlier[m]);
    if k < |ss| {
      RunKeepsLatency(ss[..k], lim, ss[k].id);
      assert IdBelow(ss[k].id)(earlier[i]);
    }
  }

  // ---- The picture just decoded -------------------------------------------------------------------------------

  /** A short-term reference with this identity and order count. */
  function ShortRef(id: nat, poc: int): Pic -> bool { (p: Pic) => p.id == id && p.poc == poc && p.ref && !p.longTerm }

  /** Bumping takes no reference out. */
  lemma {:induction false} BumpWhileKeepsShort(st: State, lim: Limits, buffering: nat, id: nat, poc: int)
    ensures Count(BumpWhile(st, lim, buffering).pics, ShortRef(id, poc)) == Count(st.pics, ShortRef(id, poc))
    decreases Count(st.pics, Waiting)
  {
    hide NeedsBump, Output;
    if NeedsBump(st.pics, lim.maxNumPics, lim.reorder, lim.latency, buffering) && Lowest(st.pics) >= 0 {
      OutputCount(st.pics, Lowest(st.pics), false, ShortRef(id, poc));
      BumpWhileKeepsShort(BumpOnce(st, false), lim, buffering, id, poc);
    }
  }

  /** After every run the picture decoded last is stored as a short-term reference, for output or not. */
  lemma LastIsStored(ss: seq<Slice>, lim: Limits)
    requires ss != []
    ensures var s, pics := ss[|ss| - 1], Run(Initial, ss, lim).pics;
            exists p :: p in pics && p.id == s.id && p.poc == s.poc && p.ref && !p.longTerm
  {
    hide Start, BumpWhile, Filter;
    var s := ss[|ss| - 1];
    var t, q := Start(Run(Initial, ss[..|ss| - 1], lim), s, lim), ShortRef(s.id, s.poc);
    var r := Insert(t, NewPic(s)).pics;
    CountAppend(r[..|r| - 1], Stored(NewPic(s)), q);
    assert r == r[..|r| - 1] + [Stored(NewPic(s))];
    BumpWhileKeepsShort(Insert(t, NewPic(s)), lim, 0, s.id, s.poc);
    var pics := Run(Initial, ss, lim).pics;
    assert pics == BumpWhile(Insert(t, NewPic(s)), lim, 0).pics;
    CountAll(pics, q, |pics|);
    var i :| 0 <= i < |pics| && q(pics[i]);
    assert pics[i] in pics;
  }
}
