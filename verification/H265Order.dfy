/** Output order of one coded video sequence: when only the reorder rule bumps, a stream that respects
    sps_max_num_reorder_pics leaves the decoder in increasing order count. */
module H265Order {
  import opened Seqs
  import opened H265DpbSpec
  import opened H265Marking
  import opened H265Machine
  import opened H265Run

  function PocFrom(c: int): Pic -> bool { (p: Pic) => p.poc >= c }

  function PocIs(c: int): Pic -> bool { (p: Pic) => p.poc == c }

  function PocAbove(c: int): Pic -> bool { (p: Pic) => p.poc > c }

  /** The stream's promise: distinct order counts, and at most R output pictures that precede an output
      picture in decoding order follow it in output order. */
  ghost predicate ReorderBounded(ss: seq<Slice>, reorder: nat) {
    forall k :: 0 <= k < |ss| ==> InTime(ss[..k], ss[k], reorder)
  }

  ghost predicate InTime(before: seq<Slice>, s: Slice, reorder: nat) {
    s.outputFlag ==>
      && Count(Map(before, NewPic), OutputAnd(PocAbove(s.poc))) <= reorder
      && Count(Map(before, NewPic), OutputAnd(PocIs(s.poc))) == 0
  }

  lemma PrefixBounded(ss: seq<Slice>, reorder: nat)
    requires ss != [] && ReorderBounded(ss, reorder)
    ensures ReorderBounded(ss[..|ss| - 1], reorder) && InTime(ss[..|ss| - 1], ss[|ss| - 1], reorder)
  {
    var before := ss[..|ss| - 1];
    forall k | 0 <= k < |before|
      ensures InTime(before[..k], before[k], reorder)
    {
      assert before[..k] == ss[..k];
    }
  }

  /** None of the guards of the bumping decision fires, except perhaps the reorder guard. */
  ghost predicate OnlyReorder(pics: seq<Pic>, lim: Limits, buffering: nat) {
    && |pics| <= lim.maxNumPics
    && (lim.latency == 0 || Find(pics, LateBy(lim.latency)) < 0)
    && (buffering == 0 || |pics| < buffering)
  }

  /** One coded video sequence, decoded without fullness or latency pressure. Only its first picture may clear. */
  ghost predicate Relaxed(ss: seq<Slice>, lim: Limits) {
    ss == [] ||
    var before, s := ss[..|ss| - 1], ss[|ss| - 1];
    && Relaxed(before, lim)
    && (before != [] ==> !s.ClearDpb())
    && StepRelaxed(Run(Initial, before, lim), s, lim)
  }

  ghost predicate StepRelaxed(st: State, s: Slice, lim: Limits) {
    && OnlyReorder(Cleaned(st, s).pics, lim, lim.bufferingMinus1 + 1)
    && OnlyReorder(Insert(Start(st, s, lim), NewPic(s)).pics, lim, 0)
  }

  ghost predicate Increasing(ps: seq<Pic>) {
    forall i, j :: 0 <= i < j < |ps| ==> ps[i].poc < ps[j].poc
  }

  predicate WaitingDiffer(a: Pic, b: Pic) { a.needed && b.needed ==> a.poc != b.poc }

  /** Everything waiting comes after everything emitted. */
  ghost predicate InOrder(st: State) {
    && Increasing(st.emitted)
    && Pairwise(st.pics, WaitingDiffer)
    && (st.emitted != [] ==>
          forall i :: 0 <= i < |st.pics| && st.pics[i].needed ==> st.emitted[|st.emitted| - 1].poc < st.pics[i].poc)
  }

  /** The last emitted picture had at least R finished pictures at or after it in output order, besides itself. */
  ghost predicate Backed(st: State, reorder: nat) {
    st.emitted != [] ==>
      Count(st.finished, OutputAnd(PocFrom(st.emitted[|st.emitted| - 1].poc))) > reorder
  }

  ghost predicate AllConserved(st: State) {
    && st.discarded == []
    && forall c :: Conserved(st, PocFrom(c)) && Conserved(st, PocIs(c))
  }

  lemma BumpOnceInOrder(st: State, drain: bool)
    requires Lowest(st.pics) >= 0 && InOrder(st)
    ensures InOrder(BumpOnce(st, drain))
  {
    var i := Lowest(st.pics);
    var m := st.pics[i];
    forall k | 0 <= k < |st.pics| && st.pics[k].needed && k != i
      ensures m.poc < st.pics[k].poc
    {
      assert if i < k then WaitingDiffer(m, st.pics[k]) else WaitingDiffer(st.pics[k], m);
    }
    var r := BumpOnce(st, drain);
    forall k | 0 <= k < |r.pics| && r.pics[k].needed
      ensures m.poc < r.pics[k].poc
    {
      assert exists j :: 0 <= j < |st.pics| && j != i && st.pics[j] == r.pics[k] by {
        assert r.pics[k] == st.pics[k] || r.pics[k] == st.pics[|st.pics| - 1];
      }
    }
  }

  lemma BumpOnceBacked(st: State, reorder: nat)
    requires Lowest(st.pics) >= 0 && AllConserved(st) && Count(st.pics, Waiting) > reorder
    ensures Backed(BumpOnce(st, false), reorder)
  {
    var c := st.pics[Lowest(st.pics)].poc;
    CountSame(st.pics, WaitingAnd(PocFrom(c)), st.pics, Waiting, |st.pics|);
    assert Conserved(st, PocFrom(c));
  }

  lemma BumpOnceAllConserved(st: State, drain: bool)
    requires Lowest(st.pics) >= 0 && AllConserved(st)
    ensures AllConserved(BumpOnce(st, drain))
  {
    forall c
      ensures Conserved(BumpOnce(st, drain), PocFrom(c)) && Conserved(BumpOnce(st, drain), PocIs(c))
    {
      assert Conserved(st, PocFrom(c)) && Conserved(st, PocIs(c));
      BumpOnceConserves(st, drain, PocFrom(c));
      BumpOnceConserves(st, drain, PocIs(c));
    }
  }

  lemma BumpOnceStaysRelaxed(pics: seq<Pic>, lim: Limits, buffering: nat, i: nat)
    requires i < |pics| && OnlyReorder(pics, lim, buffering)
    ensures OnlyReorder(Output(pics, i, false), lim, buffering)
  {
    var r, late := Output(pics, i, false), LateBy(lim.latency);
    if lim.latency != 0 {
      assert forall k :: 0 <= k < |r| ==> r[k] in pics + [pics[i].(needed := false)];
      assert forall k :: 0 <= k < |r| ==> !late(r[k]);
    }
  }

  lemma {:induction false} BumpWhileInOrder(st: State, lim: Limits, buffering: nat)
    requires InOrder(st) && Backed(st, lim.reorder) && AllConserved(st) && OnlyReorder(st.pics, lim, buffering)
    ensures var r := BumpWhile(st, lim, buffering);
            InOrder(r) && Backed(r, lim.reorder) && AllConserved(r) && r.finished == st.finished
    decreases Count(st.pics, Waiting)
  {
    if NeedsBump(st.pics, lim.maxNumPics, lim.reorder, lim.latency, buffering) && Lowest(st.pics) >= 0 {
      BumpOnceInOrder(st, false);
      BumpOnceBacked(st, lim.reorder);
      BumpOnceAllConserved(st, false);
      BumpOnceStaysRelaxed(st.pics, lim, buffering, Lowest(st.pics));
      BumpWhileInOrder(BumpOnce(st, false), lim, buffering);
    }
  }

  lemma {:induction false} BumpAllInOrder(st: State, drain: bool)
    requires InOrder(st)
    ensures InOrder(BumpAll(st, drain))
    decreases Count(st.pics, Waiting)
  {
    if Lowest(st.pics) >= 0 {
      BumpOnceInOrder(st, drain);
      BumpAllInOrder(BumpOnce(st, drain), drain);
    }
  }

  lemma DeleteUnusedInOrder(st: State)
    requires InOrder(st)
    ensures InOrder(st.(pics := DeleteUnused(st.pics)))
  {
    var r := DeleteUnused(st.pics);
    FilterPairwise(st.pics, |st.pics|, InUse, WaitingDiffer);
    FilterMembers(st.pics, |st.pics|, InUse);
    assert forall i :: 0 <= i < |r| ==> r[i] in st.pics[..|st.pics|];
  }

  lemma CleanedAllConserved(st: State, s: Slice)
    requires AllConserved(st)
    ensures AllConserved(Cleaned(st, s))
  {
    forall c
      ensures Conserved(Cleaned(st, s), PocFrom(c)) && Conserved(Cleaned(st, s), PocIs(c))
    {
      assert Conserved(st, PocFrom(c)) && Conserved(st, PocIs(c));
      MarkedCount(st.pics, s, PocFrom(c));
      MarkedCount(st.pics, s, PocIs(c));
    }
  }

  lemma CleanedInOrder(st: State, s: Slice)
    requires InOrder(st)
    ensures InOrder(Cleaned(st, s))
  {
    var m := Marked(st.pics, s);
    forall i | 0 <= i < |m|
      ensures m[i].needed == st.pics[i].needed && m[i].poc == st.pics[i].poc
    {
      MarkedKeeps(st.pics, s, i);
    }
    forall i, j | 0 <= i < j < |m|
      ensures WaitingDiffer(m[i], m[j])
    {
      assert WaitingDiffer(st.pics[i], st.pics[j]);
    }
    DeleteUnusedInOrder(st.(pics := m));
  }

  lemma CleanedGood(st: State, s: Slice, reorder: nat)
    requires InOrder(st) && Backed(st, reorder) && AllConserved(st)
    ensures var c := Cleaned(st, s);
            InOrder(c) && Backed(c, reorder) && AllConserved(c) && c.finished == st.finished
  {
    CleanedInOrder(st, s);
    CleanedAllConserved(st, s);
  }

  /** The heart: a picture that obeys the reorder bound cannot arrive too late. */
  lemma NoLateArrival(st: State, poc: int, reorder: nat)
    requires AllConserved(st) && Backed(st, reorder)
    requires Count(st.finished, OutputAnd(PocAbove(poc))) <= reorder
    requires Count(st.finished, OutputAnd(PocIs(poc))) == 0
    ensures st.emitted != [] ==> st.emitted[|st.emitted| - 1].poc < poc
    ensures forall i :: 0 <= i < |st.pics| && st.pics[i].needed ==> st.pics[i].poc != poc
  {
    assert Conserved(st, PocIs(poc));
    CountAll(st.pics, WaitingAnd(PocIs(poc)), |st.pics|);
    CountAll(st.emitted, PocIs(poc), |st.emitted|);
    if st.emitted != [] {
      var last := st.emitted[|st.emitted| - 1].poc;
      assert !PocIs(poc)(st.emitted[|st.emitted| - 1]);
      if poc < last {
        CountMonotone(st.finished, OutputAnd(PocFrom(last)), OutputAnd(PocAbove(poc)), |st.finished|);
      }
    }
  }

  lemma InsertAllConserved(st: State, p: Pic)
    requires AllConserved(st)
    ensures AllConserved(Insert(st, p))
  {
    forall c
      ensures Conserved(Insert(st, p), PocFrom(c)) && Conserved(Insert(st, p), PocIs(c))
    {
      assert Conserved(st, PocFrom(c)) && Conserved(st, PocIs(c));
      InsertConserves(st, p, PocFrom(c));
      InsertConserves(st, p, PocIs(c));
    }
  }

  lemma InsertBacked(st: State, p: Pic, reorder: nat)
    requires Backed(st, reorder)
    ensures Backed(Insert(st, p), reorder)
  {
    if st.emitted != [] {
      CountAppend(st.finished, p, OutputAnd(PocFrom(st.emitted[|st.emitted| - 1].poc)));
    }
  }

  lemma AgedInOrder(st: State)
    requires InOrder(st)
    ensures InOrder(st.(pics := Map(st.pics, Aged)))
  {
    forall i, j | 0 <= i < j < |st.pics|
      ensures WaitingDiffer(Aged(st.pics[i]), Aged(st.pics[j]))
    {
      assert WaitingDiffer(st.pics[i], st.pics[j]);
    }
  }

  lemma AppendInOrder(st: State, x: Pic)
    requires InOrder(st)
    requires x.needed ==> forall i :: 0 <= i < |st.pics| && st.pics[i].needed ==> st.pics[i].poc != x.poc
    requires x.needed && st.emitted != [] ==> st.emitted[|st.emitted| - 1].poc < x.poc
    ensures InOrder(st.(pics := st.pics + [x]))
  {
  }

  lemma InsertInOrder(st: State, p: Pic, reorder: nat)
    requires InOrder(st) && Backed(st, reorder) && AllConserved(st)
    requires p.outputFlag ==> Count(st.finished, OutputAnd(PocAbove(p.poc))) <= reorder
    requires p.outputFlag ==> Count(st.finished, OutputAnd(PocIs(p.poc))) == 0
    ensures InOrder(Insert(st, p))
  {
    var d := st.(pics := DeleteUnused(st.pics));
    DeleteUnusedInOrder(st);
    AgedInOrder(d);
    if p.outputFlag {
      NoLateArrival(st, p.poc, reorder);
      FilterMembers(st.pics, |st.pics|, InUse);
      forall i | 0 <= i < |d.pics| && d.pics[i].needed
        ensures d.pics[i].poc != p.poc
      {
        assert d.pics[i] in st.pics[..|st.pics|];
      }
      AppendInOrder(d.(pics := Map(d.pics, Aged)), Stored(p));
    } else {
      AppendInOrder(d, Stored(p));
    }
  }

  lemma StartInOrder(st: State, s: Slice, lim: Limits)
    requires InOrder(st) && Backed(st, lim.reorder) && AllConserved(st)
    requires !s.ClearDpb() && OnlyReorder(Cleaned(st, s).pics, lim, lim.bufferingMinus1 + 1)
    ensures var t := Start(st, s, lim);
            InOrder(t) && Backed(t, lim.reorder) && AllConserved(t) && t.finished == st.finished
  {
    hide Marked;
    CleanedGood(st, s, lim.reorder);
    StartBumps(st, s, lim);
    BumpWhileInOrder(Cleaned(st, s), lim, lim.bufferingMinus1 + 1);
  }

  lemma FinishInOrder(st: State, s: Slice, lim: Limits)
    requires InOrder(st) && Backed(st, lim.reorder) && AllConserved(st)
    requires s.outputFlag ==> Count(st.finished, OutputAnd(PocAbove(s.poc))) <= lim.reorder
    requires s.outputFlag ==> Count(st.finished, OutputAnd(PocIs(s.poc))) == 0
    requires OnlyReorder(Insert(st, NewPic(s)).pics, lim, 0)
    ensures var r := Finish(st, s, lim);
            InOrder(r) && Backed(r, lim.reorder) && AllConserved(r) && r.finished == st.finished + [NewPic(s)]
  {
    var n := Insert(st, NewPic(s));
    InsertInOrder(st, NewPic(s), lim.reorder);
    InsertAllConserved(st, NewPic(s));
    InsertBacked(st, NewPic(s), lim.reorder);
    assert n.finished == st.finished + [NewPic(s)];
    BumpWhileInOrder(n, lim, 0);
    assert Finish(st, s, lim) == BumpWhile(n, lim, 0);
  }

  /** On an empty buffer nothing happens before decoding. */
  lemma StartOnEmpty(st: State, s: Slice, lim: Limits)
    requires st.pics == []
    ensures Start(st, s, lim) == st
  {
    hide Mark;
    assert Cleaned(st, s) == st;
    StartBumps(st, s, lim);
    BumpWhileUnfolds(st, lim, lim.bufferingMinus1 + 1);
    BumpAllUnfolds(st, false);
    BumpAllUnfolds(st.(emitted := []), true);
  }

  /** One picture: it may clear the buffer only when that is empty already. */
  lemma StepInOrder(st: State, s: Slice, lim: Limits)
    requires InOrder(st) && Backed(st, lim.reorder) && AllConserved(st) && StepRelaxed(st, s, lim)
    requires s.outputFlag ==> Count(st.finished, OutputAnd(PocAbove(s.poc))) <= lim.reorder
    requires s.outputFlag ==> Count(st.finished, OutputAnd(PocIs(s.poc))) == 0
    requires st.pics == [] || !s.ClearDpb()
    ensures var r := Step(st, s, lim);
            InOrder(r) && Backed(r, lim.reorder) && AllConserved(r) && r.finished == st.finished + [NewPic(s)]
  {
    hide InOrder, Backed, AllConserved, Start, Finish, OnlyReorder, Insert, Cleaned, Count;
    if st.pics == [] {
      StartOnEmpty(st, s, lim);
    } else {
      StartInOrder(st, s, lim);
    }
    FinishInOrder(Start(st, s, lim), s, lim);
  }

  lemma InitialInOrder(reorder: nat)
    ensures InOrder(Initial) && Backed(Initial, reorder) && AllConserved(Initial)
  {
  }

  lemma {:induction false} RunInOrder(ss: seq<Slice>, lim: Limits)
    requires ReorderBounded(ss, lim.reorder) && Relaxed(ss, lim)
    ensures var r := Run(Initial, ss, lim);
            InOrder(r) && Backed(r, lim.reorder) && AllConserved(r) && r.finished == Map(ss, NewPic)
  {
    hide InOrder, Backed, AllConserved, StepRelaxed, Step, ReorderBounded, Count;
    InitialInOrder(lim.reorder);
    if ss != [] {
      var before, s := ss[..|ss| - 1], ss[|ss| - 1];
      PrefixBounded(ss, lim.reorder);
      RunInOrder(before, lim);
      StepInOrder(Run(Initial, before, lim), s, lim);
      MapLast(ss, NewPic);
    }
  }

  // ---- Whatever came before -------------------------------------------------------------------------------------

  /** The state st after what base has recorded. */
  function After(base: State, st: State): State {
    State(st.pics, base.emitted + st.emitted, base.finished + st.finished, base.discarded + st.discarded)
  }

  lemma BumpOnceAfter(base: State, st: State, drain: bool)
    requires Lowest(st.pics) >= 0
    ensures BumpOnce(After(base, st), drain) == After(base, BumpOnce(st, drain))
  {
    assert base.emitted + st.emitted + [st.pics[Lowest(st.pics)].(needed := false)]
        == base.emitted + (st.emitted + [st.pics[Lowest(st.pics)].(needed := false)]);
  }

  lemma {:induction false} BumpWhileAfter(base: State, st: State, lim: Limits, buffering: nat)
    ensures BumpWhile(After(base, st), lim, buffering) == After(base, BumpWhile(st, lim, buffering))
    decreases Count(st.pics, Waiting)
  {
    hide NeedsBump, BumpOnce;
    BumpWhileUnfolds(After(base, st), lim, buffering);
    BumpWhileUnfolds(st, lim, buffering);
    if NeedsBump(st.pics, lim.maxNumPics, lim.reorder, lim.latency, buffering) && Lowest(st.pics) >= 0 {
      BumpOnceAfter(base, st, false);
      BumpWhileAfter(base, BumpOnce(st, false), lim, buffering);
    }
  }

  lemma {:induction false} BumpAllAfter(base: State, st: State, drain: bool)
    ensures BumpAll(After(base, st), drain) == After(base, BumpAll(st, drain))
    decreases Count(st.pics, Waiting)
  {
    hide BumpOnce;
    BumpAllUnfolds(After(base, st), drain);
    BumpAllUnfolds(st, drain);
    if Lowest(st.pics) >= 0 {
      BumpOnceAfter(base, st, drain);
      BumpAllAfter(base, BumpOnce(st, drain), drain);
    }
  }

  lemma DiscardAllAfter(base: State, st: State)
    ensures DiscardAll(After(base, st)) == After(base, DiscardAll(st))
  {
    var thrown := BumpAll(st.(emitted := []), true).emitted;
    BumpAllAfter(base.(emitted := []), st.(emitted := []), true);
    assert After(base.(emitted := []), st.(emitted := [])) == After(base, st).(emitted := []);
    assert [] + thrown == thrown;
    assert base.discarded + st.discarded + thrown == base.discarded + (st.discarded + thrown);
  }

  lemma StartAfter(base: State, st: State, s: Slice, lim: Limits)
    ensures Start(After(base, st), s, lim) == After(base, Start(st, s, lim))
  {
    hide Marked, BumpWhile, BumpAll, DiscardAll;
    BumpWhileAfter(base, Cleaned(st, s), lim, lim.bufferingMinus1 + 1);
    BumpAllAfter(base, Cleaned(st, s), false);
    DiscardAllAfter(base, st.(pics := Marked(st.pics, s)));
  }

  lemma FinishAfter(base: State, st: State, s: Slice, lim: Limits)
    ensures Finish(After(base, st), s, lim) == After(base, Finish(st, s, lim))
  {
    hide BumpWhile;
    assert base.finished + st.finished + [NewPic(s)] == base.finished + (st.finished + [NewPic(s)]);
    BumpWhileAfter(base, Insert(st, NewPic(s)), lim, 0);
  }

  lemma {:induction false} RunAfter(base: State, ss: seq<Slice>, lim: Limits)
    requires base.pics == []
    ensures Run(base, ss, lim) == After(base, Run(Initial, ss, lim))
  {
    hide Start, Finish;
    if ss != [] {
      var before, s := ss[..|ss| - 1], ss[|ss| - 1];
      RunAfter(base, before, lim);
      StartAfter(base, Run(Initial, before, lim), s, lim);
      FinishAfter(base, Start(Run(Initial, before, lim), s, lim), s, lim);
    }
  }

  lemma {:induction false} RunSplits(st: State, ss: seq<Slice>, k: nat, lim: Limits)
    requires k <= |ss|
    ensures Run(st, ss, lim) == Run(Run(st, ss[..k], lim), ss[k..], lim)
  {
    hide Step;
    if k == |ss| {
      assert ss[..k] == ss;
    } else {
      var before := ss[..|ss| - 1];
      RunSplits(st, before, k, lim);
      assert before[..k] == ss[..k] && before[k..] == ss[k..][..|ss[k..]| - 1];
    }
  }

  /** From the start of a sequence on, the run is that of the sequence alone, behind what was recorded before. */
  lemma SequenceAlone(ss: seq<Slice>, b: nat, lim: Limits)
    requires b < |ss| && (b == 0 || ss[b].ClearDpb())
    ensures Run(Initial, ss, lim) == After(Start(Run(Initial, ss[..b], lim), ss[b], lim), Run(Initial, ss[b..], lim))
  {
    hide Start, Finish;
    var st, s, rest := Run(Initial, ss[..b], lim), ss[b], ss[b + 1..];
    var base := Start(st, s, lim);
    if b > 0 {
      ClearLeavesNothing(st, s, lim);
    } else {
      StartOnEmpty(st, s, lim);
    }
    StartOnEmpty(Initial, s, lim);
    FinishAfter(base, Initial, s, lim);
    assert After(base, Initial) == base;
    assert ss[..b + 1] == ss[..b] + [s] && ss[b..] == [s] + rest;
    RunSplits(Initial, ss, b + 1, lim);
    RunSplits(Initial, ss[b..], 1, lim);
    assert ss[..b + 1][..b] == ss[..b] && ss[b..][..1] == [s] && [s][..0] == [] && ss[b..][1..] == rest;
    RunFromAfter(base, Run(Initial, [s], lim), rest, lim);
  }

  lemma {:induction false} RunFromAfter(base: State, st: State, ss: seq<Slice>, lim: Limits)
    ensures Run(After(base, st), ss, lim) == After(base, Run(st, ss, lim))
  {
    hide Start, Finish;
    if ss != [] {
      var before, s := ss[..|ss| - 1], ss[|ss| - 1];
      RunFromAfter(base, st, before, lim);
      StartAfter(base, Run(st, before, lim), s, lim);
      FinishAfter(base, Start(Run(st, before, lim), s, lim), s, lim);
    }
  }

  /** The pictures out are those of the sequence that are for output, in strictly increasing order count. */
  ghost predicate SortedOutput(out: seq<Pic>, ss: seq<Slice>) {
    && Increasing(out)
    && forall c :: Count(out, PocIs(c)) == Count(Map(ss, NewPic), OutputAnd(PocIs(c)))
  }

  lemma FlushedInOrder(st: State, ss: seq<Slice>, drain: bool)
    requires InOrder(st) && AllConserved(st) && st.finished == Map(ss, NewPic)
    ensures SortedOutput(BumpAll(st, drain).emitted, ss)
  {
    BumpAllInOrder(st, drain);
    forall c
      ensures Count(BumpAll(st, drain).emitted, PocIs(c)) == Count(Map(ss, NewPic), OutputAnd(PocIs(c)))
    {
      assert Conserved(st, PocIs(c));
      BumpAllConserves(st, drain, PocIs(c));
    }
  }

  /** From any state whose buffer is empty, through the final drain: the order counts emitted strictly increase, and
      they are exactly those of the stream's output pictures. */
  lemma OutputOrder(base: State, ss: seq<Slice>, lim: Limits)
    requires base.pics == [] && ReorderBounded(ss, lim.reorder) && Relaxed(ss, lim)
    ensures var out := Drain(Run(base, ss, lim)).emitted;
            base.emitted <= out && SortedOutput(out[|base.emitted|..], ss)
  {
    hide SortedOutput;
    var alone := Run(Initial, ss, lim);
    RunInOrder(ss, lim);
    FlushedInOrder(alone, ss, true);
    RunAfter(base, ss, lim);
    BumpAllAfter(base, alone, true);
    assert (base.emitted + BumpAll(alone, true).emitted)[|base.emitted|..] == BumpAll(alone, true).emitted;
  }

  /** Sequence after sequence: what is emitted from a clearing picture b until a later one, e, has begun is sorted, and
      complete unless e discards what is left. */
  lemma SequenceInOrder(ss: seq<Slice>, b: nat, e: nat, lim: Limits)
    requires b < e < |ss| && (b == 0 || ss[b].ClearDpb()) && ss[e].ClearDpb()
    requires ReorderBounded(ss[b..e], lim.reorder) && Relaxed(ss[b..e], lim)
    ensures var base := Start(Run(Initial, ss[..b], lim), ss[b], lim).emitted;
            var st := Run(Initial, ss[..e], lim);
            var before, out := st.emitted, Start(st, ss[e], lim).emitted;
            && base <= before <= out && Increasing(before[|base|..])
            && if ss[e].noOutputOfPriorPics then out == before else SortedOutput(out[|base|..], ss[b..e])
  {
    hide SortedOutput, Start, Run, Increasing, Marked;
    var part := ss[b..e];
    var base, alone := Start(Run(Initial, ss[..b], lim), ss[b], lim), Run(Initial, part, lim);
    assert ss[..e][..b] == ss[..b] && ss[..e][b] == ss[b] && ss[..e][b..] == part;
    SequenceAlone(ss[..e], b, lim);
    RunInOrder(part, lim);
    CleanedGood(alone, ss[e], lim.reorder);
    FlushedInOrder(Cleaned(alone, ss[e]), part, false);
    StartAfter(base, alone, ss[e], lim);
    ClearEmits(alone, ss[e], lim);
    Behind(base.emitted, alone.emitted);
    Behind(base.emitted, Start(alone, ss[e], lim).emitted);
  }

  lemma Behind(a: seq<Pic>, b: seq<Pic>)
    ensures (a + b)[|a|..] == b
  {
  }

  lemma ClearEmits(st: State, s: Slice, lim: Limits)
    requires s.ClearDpb()
    ensures Start(st, s, lim).emitted
         == if s.noOutputOfPriorPics then st.emitted else BumpAll(Cleaned(st, s), false).emitted
    ensures st.emitted <= Start(st, s, lim).emitted
  {
    hide Marked;
    StartBumps(st, s, lim);
    BumpAllHistory(Cleaned(st, s), false);
  }
}
