/** Memory management control operations by what an encoder wants (section 8.2.5.4 of H.264): which frame each operation
    finds, when a list of them does what was wanted, and the one case in which it does not. */
module H264Adaptive {
  import opened Seqs
  import opened H264DpbSpec
  import opened H264Machine
  import opened H264Marking
  import opened H264Keep
  import opened H264LongTerm
  import opened H264Dpb
  import opened H264Decoder
  import opened Modulo

  /** What can be wanted of the stored frames, named by their places in the list, and of the current frame. */
  datatype Wish =
    | DropShort(i: nat)
    | DropLong(i: nat)
    | KeepLong(i: nat, idx: nat)
    | Limit(indices: nat)
    | DropAll
    | CurrentLong(idx: nat)

  predicate HoldsIdx(p: Pic, idx: int) { p.ref == LongTerm && p.longTermFrameIdx == idx }

  /** What becomes of the k-th stored frame. */
  function FrameAfter(p: Pic, k: nat, w: Wish): Pic {
    match w
    case DropShort(i) => if k == i then p.(ref := Unused) else p
    case DropLong(i) => if k == i then p.(ref := Unused) else p
    case KeepLong(i, idx) =>
      if k == i then p.(ref := LongTerm, refPic := true, longTermFrameIdx := idx)
      else if HoldsIdx(p, idx) then p.(ref := Unused)
      else p
    case Limit(n) => if p.ref == LongTerm && p.longTermFrameIdx >= n then p.(ref := Unused) else p
    case DropAll => p.(ref := Unused)
    case CurrentLong(idx) => if HoldsIdx(p, idx) then p.(ref := Unused) else p
  }

  /** The buffer, the current frame and the largest index in force as the wish wants them. */
  function Granted(m: Marking, w: Wish): (r: Marking)
    ensures |r.pics| == |m.pics|
    ensures forall k {:trigger r.pics[k]} :: 0 <= k < |r.pics| ==> r.pics[k] == FrameAfter(m.pics[k], k, w)
  {
    var pics := seq(|m.pics|, k requires 0 <= k < |m.pics| => FrameAfter(m.pics[k], k, w));
    match w
    case Limit(n) => m.(pics := pics, maxLongTermFrameIdx := n - 1)
    case DropAll =>
      m.(pics := pics, cur := m.cur.(frameNum := 0, poc := 0), memMgmt5 := true, maxLongTermFrameIdx := -1)
    case CurrentLong(idx) => m.(pics := pics, cur := m.cur.(ref := LongTerm, refPic := true, longTermFrameIdx := idx))
    case _ => m.(pics := pics)
  }

  /** A wish names a frame of its kind; short-term frames lie before the current one. */
  predicate Possible(m: Marking, w: Wish) {
    match w
    case DropShort(i) => i < |m.pics| && IsShort(m.pics[i]) && m.pics[i].picNum < m.cur.picNum
    case DropLong(i) => i < |m.pics| && IsLong(m.pics[i])
    case KeepLong(i, _) => i < |m.pics| && IsShort(m.pics[i]) && m.pics[i].picNum < m.cur.picNum
    case _ => true
  }

  /** The operation that is sent for it. LongTermPicNum of a frame is its index (section 8.2.4.1). */
  function Sent(m: Marking, w: Wish): Mmco
    requires Possible(m, w)
  {
    match w
    case DropShort(i) => Mmco(1, m.cur.picNum - m.pics[i].picNum - 1, 0, 0, 0)
    case DropLong(i) => Mmco(2, 0, m.pics[i].longTermFrameIdx, 0, 0)
    case KeepLong(i, idx) => Mmco(3, m.cur.picNum - m.pics[i].picNum - 1, 0, idx, 0)
    case Limit(n) => Mmco(4, 0, 0, 0, n)
    case DropAll => Mmco(5, 0, 0, 0, 0)
    case CurrentLong(idx) => Mmco(6, 0, 0, idx, 0)
  }

  predicate ShortDiffer(a: Pic, b: Pic) { IsShort(a) && IsShort(b) ==> a.picNum != b.picNum }

  /** Numbers and indices tell the references apart. */
  ghost predicate Distinct(pics: seq<Pic>) { Pairwise(pics, ShortDiffer) && Pairwise(pics, LongDiffer) }

  /** The frame's own number is not its index, or a frame before it in the list bears the number that is its index. */
  predicate Misread(m: Marking, w: Wish) {
    w.DropLong? && w.i < |m.pics| &&
    var idx := m.pics[w.i].longTermFrameIdx;
    || m.pics[w.i].longTermPicNum != idx
    || exists j :: 0 <= j < w.i && IsLong(m.pics[j]) && m.pics[j].longTermPicNum == idx
  }

  lemma ShortFound(pics: seq<Pic>, i: nat)
    requires i < |pics| && IsShort(pics[i]) && Distinct(pics)
    ensures Find(pics, ShortWithPicNum(pics[i].picNum)) == i
  {
    var x := Find(pics, ShortWithPicNum(pics[i].picNum));
    assert ShortWithPicNum(pics[i].picNum)(pics[i]);
    assert 0 <= x < i ==> ShortDiffer(pics[x], pics[i]);
  }

  lemma LongFoundIff(pics: seq<Pic>, i: nat, idx: int)
    requires i < |pics| && IsLong(pics[i])
    ensures Find(pics, LongWithPicNum(idx)) == i
       <==> pics[i].longTermPicNum == idx
            && forall j :: 0 <= j < i && IsLong(pics[j]) ==> pics[j].longTermPicNum != idx
  {
    var x := Find(pics, LongWithPicNum(idx));
    if pics[i].longTermPicNum == idx {
      assert LongWithPicNum(idx)(pics[i]);
    }
    assert forall j :: 0 <= j < x ==> !LongWithPicNum(idx)(pics[j]);
  }

  /** One operation does what was wanted, unless it drops a long-term frame that is misread. */
  lemma SentIsGrantedIff(m: Marking, w: Wish)
    requires Possible(m, w) && Distinct(m.pics)
    ensures ApplyMmco(m, Sent(m, w)) == Granted(m, w) <==> !Misread(m, w)
  {
    hide Find, FreeIdx, Distinct;
    match w
    case DropShort(i) => ShortFound(m.pics, i);
    case DropLong(i) => DropLongIff(m, i);
    case KeepLong(i, idx) =>
      ShortFound(m.pics, i);
      FreedThenKept(m, i, idx);
    case Limit(n) => assert ApplyMmco(m, Sent(m, w)).pics == Granted(m, w).pics;
    case DropAll => assert ApplyMmco(m, Sent(m, w)).pics == Granted(m, w).pics;
    case CurrentLong(idx) =>
      FreeAll(m.pics, idx);
      assert ApplyMmco(m, Sent(m, w)).pics == Granted(m, w).pics;
  }

  lemma FreeAll(pics: seq<Pic>, idx: int)
    requires Distinct(pics)
    ensures forall k :: 0 <= k < |pics| ==>
              FreeIdx(pics, idx)[k] == if HoldsIdx(pics[k], idx) then pics[k].(ref := Unused) else pics[k]
  {
    hide FreeIdx;
    FreeIdxFreesAll(pics, idx);
    forall k | 0 <= k < |pics|
      ensures FreeIdx(pics, idx)[k] == if HoldsIdx(pics[k], idx) then pics[k].(ref := Unused) else pics[k]
    {
      assert FreeIdx(pics, idx)[k] == UnmarkIdx(idx)(pics[k]);
      assert LongWithIdx(idx)(pics[k]) == HoldsIdx(pics[k], idx);
    }
  }

  lemma FreedThenKept(m: Marking, i: nat, idx: nat)
    requires i < |m.pics| && IsShort(m.pics[i]) && Distinct(m.pics)
    ensures FreeIdx(m.pics, idx)[i := MakeLong(idx)(m.pics[i])] == Granted(m, KeepLong(i, idx)).pics
  {
    hide FreeIdx, Distinct;
    FreeAll(m.pics, idx);
  }

  lemma DropLongIff(m: Marking, i: nat)
    requires i < |m.pics| && IsLong(m.pics[i])
    ensures ApplyMmco(m, Sent(m, DropLong(i))) == Granted(m, DropLong(i)) <==> !Misread(m, DropLong(i))
  {
    hide Find;
    var idx := m.pics[i].longTermFrameIdx;
    var x, r := Find(m.pics, LongWithPicNum(idx)), Granted(m, DropLong(i));
    LongFoundIff(m.pics, i, idx);
    assert r.pics[i].ref == Unused && r.pics == m.pics[i := Unmark(m.pics[i])];
    if x != i {
      assert ApplyMmco(m, Sent(m, DropLong(i))).pics[i] == m.pics[i];
    }
  }

  // ---- Lists of operations ------------------------------------------------------------------------------------

  /** After the first n wishes. */
  function Wanted(m: Marking, ws: seq<Wish>, n: nat): (r: Marking)
    requires n <= |ws|
    ensures |r.pics| == |m.pics|
  {
    if n == 0 then m else Granted(Wanted(m, ws, n - 1), ws[n - 1])
  }

  ghost predicate AllPossible(m: Marking, ws: seq<Wish>) {
    forall k :: 0 <= k < |ws| ==> Possible(Wanted(m, ws, k), ws[k])
  }

  /** What an encoder sends that keeps its own buffer as it wants it. */
  ghost function SentAll(m: Marking, ws: seq<Wish>, n: nat): (ops: seq<Mmco>)
    requires n <= |ws| && AllPossible(m, ws)
    ensures |ops| == n
  {
    if n == 0 then [] else SentAll(m, ws, n - 1) + [Sent(Wanted(m, ws, n - 1), ws[n - 1])]
  }

  /** The decoder's buffer is the wanted one after every operation. */
  ghost predicate AlwaysGranted(m: Marking, ws: seq<Wish>, n: nat)
    requires n <= |ws| && AllPossible(m, ws)
  {
    forall k :: 0 <= k <= n ==> ApplyTo(m, SentAll(m, ws, n), k) == Wanted(m, ws, k)
  }

  ghost predicate NeverMisread(m: Marking, ws: seq<Wish>, n: nat)
    requires n <= |ws|
  {
    forall k :: 0 <= k < n ==> !Misread(Wanted(m, ws, k), ws[k])
  }

  lemma GrantedKeepsDistinct(m: Marking, w: Wish)
    requires Distinct(m.pics) && Possible(m, w)
    ensures Distinct(Granted(m, w).pics)
  {
    var r := Granted(m, w).pics;
    forall i, j | 0 <= i < j < |r|
      ensures ShortDiffer(r[i], r[j]) && LongDiffer(r[i], r[j])
    {
      assert ShortDiffer(m.pics[i], m.pics[j]) && LongDiffer(m.pics[i], m.pics[j]);
    }
  }

  lemma {:induction false} WantedKeepsDistinct(m: Marking, ws: seq<Wish>, n: nat)
    requires n <= |ws| && Distinct(m.pics) && AllPossible(m, ws)
    ensures Distinct(Wanted(m, ws, n).pics)
  {
    hide Distinct, Granted, Possible;
    if n > 0 {
      WantedKeepsDistinct(m, ws, n - 1);
      GrantedKeepsDistinct(Wanted(m, ws, n - 1), ws[n - 1]);
    }
  }

  lemma {:induction false} ApplySame(m: Marking, a: seq<Mmco>, b: seq<Mmco>, n: nat)
    requires n <= |a| && n <= |b| && a[..n] == b[..n]
    ensures ApplyTo(m, a, n) == ApplyTo(m, b, n)
  {
    hide ApplyMmco;
    if n > 0 {
      assert a[..n][..n - 1] == a[..n - 1] && b[..n][..n - 1] == b[..n - 1];
      assert a[n - 1] == a[..n][n - 1] == b[..n][n - 1] == b[n - 1];
      ApplySame(m, a, b, n - 1);
    }
  }

  lemma ApplySent(m: Marking, ws: seq<Wish>, n: nat, k: nat)
    requires k <= n < |ws| && AllPossible(m, ws)
    ensures ApplyTo(m, SentAll(m, ws, n + 1), k) == ApplyTo(m, SentAll(m, ws, n), k)
    ensures ApplyTo(m, SentAll(m, ws, n + 1), n + 1)
         == ApplyMmco(ApplyTo(m, SentAll(m, ws, n), n), Sent(Wanted(m, ws, n), ws[n]))
  {
    hide ApplyMmco, Sent, Possible, Granted;
    ApplySame(m, SentAll(m, ws, n + 1), SentAll(m, ws, n), k);
    ApplySame(m, SentAll(m, ws, n + 1), SentAll(m, ws, n), n);
  }

  lemma AlwaysGrantedLast(m: Marking, ws: seq<Wish>, n: nat)
    requires 0 < n <= |ws| && AllPossible(m, ws)
    ensures Possible(Wanted(m, ws, n - 1), ws[n - 1])
    ensures var now := ApplyTo(m, SentAll(m, ws, n - 1), n - 1);
            AlwaysGranted(m, ws, n) <==>
              AlwaysGranted(m, ws, n - 1)
              && ApplyMmco(now, Sent(Wanted(m, ws, n - 1), ws[n - 1])) == Wanted(m, ws, n)
  {
    hide Granted, Sent, ApplyMmco, Possible, SentAll, ApplyTo, Wanted;
    forall k | 0 <= k < n
      ensures ApplyTo(m, SentAll(m, ws, n), k) == ApplyTo(m, SentAll(m, ws, n - 1), k)
    {
      ApplySent(m, ws, n - 1, k);
    }
    ApplySent(m, ws, n - 1, 0);
  }

  lemma NeverMisreadLast(m: Marking, ws: seq<Wish>, n: nat)
    requires 0 < n <= |ws|
    ensures NeverMisread(m, ws, n) <==> NeverMisread(m, ws, n - 1) && !Misread(Wanted(m, ws, n - 1), ws[n - 1])
  {
    hide Misread, Wanted;
  }

  lemma NothingSent(m: Marking, ws: seq<Wish>)
    requires AllPossible(m, ws)
    ensures AlwaysGranted(m, ws, 0)
  {
  }

  /** A list of operations does what was wanted, one after the other, if and only if none is misread. */
  lemma {:induction false} SentAllIsGrantedIff(m: Marking, ws: seq<Wish>, n: nat)
    requires n <= |ws| && Distinct(m.pics) && AllPossible(m, ws)
    ensures AlwaysGranted(m, ws, n) <==> NeverMisread(m, ws, n)
  {
    hide Distinct, Granted, Sent, ApplyMmco, Possible, Misread, SentAll, AlwaysGranted, NeverMisread, AllPossible;
    if n == 0 {
      NothingSent(m, ws);
      NeverMisreadNone(m, ws);
    } else {
      SentAllIsGrantedIff(m, ws, n - 1);
      AlwaysGrantedLast(m, ws, n);
      NeverMisreadLast(m, ws, n);
      if AlwaysGranted(m, ws, n - 1) {
        WantedKeepsDistinct(m, ws, n - 1);
        GrantedSoFar(m, ws, n - 1);
        SentIsGrantedIff(Wanted(m, ws, n - 1), ws[n - 1]);
      }
    }
  }

  lemma NeverMisreadNone(m: Marking, ws: seq<Wish>)
    ensures NeverMisread(m, ws, 0)
  {
  }

  lemma GrantedSoFar(m: Marking, ws: seq<Wish>, n: nat)
    requires n <= |ws| && AllPossible(m, ws) && AlwaysGranted(m, ws, n)
    ensures ApplyTo(m, SentAll(m, ws, n), n) == Wanted(m, ws, n)
  {
  }

  // ---- When nothing is misread ---------------------------------------------------------------------------------

  /** Every long-term frame bears its index as its number. */
  function NumberIsIndex(p: Pic): bool { IsLong(p) ==> p.longTermPicNum == p.longTermFrameIdx }

  /** So it is when a frame has been started: its numbering has just been done. */
  lemma StartNumbers(st: State, s: Slice, cfg: Config)
    requires ValidNumbers(st, s, cfg) && Start(st, s, cfg).ok
    ensures Each(Start(st, s, cfg).st.pics, NumberIsIndex)
  {
    hide HandleGap, Drain, Clear;
  }

  /** No long-term frame is dropped after another has become one in the same list. */
  predicate DropsFirst(ws: seq<Wish>) {
    forall j, k :: 0 <= j < k < |ws| && ws[j].KeepLong? ==> !ws[k].DropLong?
  }

  lemma {:induction false} NumbersStay(m: Marking, ws: seq<Wish>, n: nat)
    requires n <= |ws| && Each(m.pics, NumberIsIndex) && forall k :: 0 <= k < n ==> !ws[k].KeepLong?
    ensures Each(Wanted(m, ws, n).pics, NumberIsIndex)
  {
    if n > 0 {
      NumbersStay(m, ws, n - 1);
    }
  }

  /** Then nothing is misread. */
  lemma DropsFirstIsRead(m: Marking, ws: seq<Wish>)
    requires Distinct(m.pics) && AllPossible(m, ws) && Each(m.pics, NumberIsIndex) && DropsFirst(ws)
    ensures NeverMisread(m, ws, |ws|)
  {
    hide Distinct, Granted, Possible;
    forall k | 0 <= k < |ws|
      ensures !Misread(Wanted(m, ws, k), ws[k])
    {
      if ws[k].DropLong? && ws[k].i < |m.pics| {
        NumbersStay(m, ws, k);
        WantedKeepsDistinct(m, ws, k);
        assert Possible(Wanted(m, ws, k), ws[k]);
        OwnNumberFirst(Wanted(m, ws, k), ws[k].i);
      }
    }
  }

  lemma OwnNumberFirst(m: Marking, i: nat)
    requires i < |m.pics| && Distinct(m.pics) && Each(m.pics, NumberIsIndex) && Possible(m, DropLong(i))
    ensures !Misread(m, DropLong(i))
  {
    assert NumberIsIndex(m.pics[i]);
    forall j | 0 <= j < i && IsLong(m.pics[j])
      ensures m.pics[j].longTermPicNum != m.pics[i].longTermFrameIdx
    {
      assert NumberIsIndex(m.pics[j]) && LongDiffer(m.pics[j], m.pics[i]);
    }
  }

  // ---- Slices of a run -----------------------------------------------------------------------------------------

  const END := Mmco(0, 0, 0, 0, 0)

  function MarkingAt(st: State, s: Slice): Marking { Marking(st.pics, NewPic(s), false, st.maxLongTermFrameIdx) }

  lemma {:induction false} NoneEnds(m: Marking, ws: seq<Wish>, n: nat, k: nat)
    requires k < n <= |ws| && AllPossible(m, ws)
    ensures !IsEnd(SentAll(m, ws, n)[k])
  {
    hide Sent, Possible, Granted, IsEnd, Wanted;
    if k < n - 1 {
      NoneEnds(m, ws, n - 1, k);
    } else {
      SentIsNoEnd(Wanted(m, ws, n - 1), ws[n - 1]);
    }
  }

  lemma SentIsNoEnd(m: Marking, w: Wish)
    requires Possible(m, w)
    ensures !IsEnd(Sent(m, w))
  {
  }

  /** What stands behind the end marker does not matter. */
  lemma EffectiveIsSent(m: Marking, ws: seq<Wish>, rest: seq<Mmco>)
    requires AllPossible(m, ws)
    ensures Effective(SentAll(m, ws, |ws|) + [END] + rest) == SentAll(m, ws, |ws|)
  {
    hide SentAll;
    var sent := SentAll(m, ws, |ws|);
    var ops := sent + [END] + rest;
    var x := Find(ops, IsEnd);
    assert ops[|ws|] == END && IsEnd(ops[|ws|]);
    forall k | 0 <= k < |ws|
      ensures !IsEnd(ops[k])
    {
      NoneEnds(m, ws, |ws|, k);
      assert ops[k] == sent[k];
    }
    assert x == |ws| && ops[..x] == sent;
  }

  /** Over any run of legal operations: a frame whose slice carries the operations for a list of wishes, and whatever
      behind the end marker, leaves the stored frames, the current one and the largest index exactly as wanted, if the
      short-term numbers differ and no long-term frame is dropped after another has become one. */
  lemma WishesAreGranted(ss: seq<Slice>, s: Slice, ws: seq<Wish>, rest: seq<Mmco>, cfg: Config)
    requires Numbered(ss, cfg) && LegalRun(ss, cfg) && ValidNumbers(Run(ss, cfg), s, cfg)
    requires Start(Run(ss, cfg), s, cfg).ok && s.isRef && !s.idr && s.adaptive && DropsFirst(ws)
    requires var st := Start(Run(ss, cfg), s, cfg).st;
             && Pairwise(st.pics, ShortDiffer) && AllPossible(MarkingAt(st, s), ws)
             && s.ops == SentAll(MarkingAt(st, s), ws, |ws|) + [END] + rest
    ensures var st := Start(Run(ss, cfg), s, cfg).st;
            MarkedState(st, s, cfg) == Wanted(MarkingAt(st, s), ws, |ws|)
  {
    hide Start, Run, SentAll, Wanted, AllPossible, DropsFirst, Effective, LegalRun;
    var st := Start(Run(ss, cfg), s, cfg).st;
    var m := MarkingAt(st, s);
    RunKeepsIndices(ss, cfg);
    LongLasts(Run(ss, cfg).maxLongTermFrameIdx);
    StartKeeps(Run(ss, cfg), s, cfg, LongDiffer, LongAtMost(Run(ss, cfg).maxLongTermFrameIdx));
    StartNumbers(Run(ss, cfg), s, cfg);
    DropsFirstIsRead(m, ws);
    SentAllIsGrantedIff(m, ws, |ws|);
    GrantedSoFar(m, ws, |ws|);
    EffectiveIsSent(m, ws, rest);
  }

  /** The same for the program: the loop over the operations leaves everything as wanted. */
  method MarkAsWanted(dec: Decoder, picture: Picture, ops: seq<Mmco>, ghost ws: seq<Wish>, ghost rest: seq<Mmco>)
    requires dec.dpb.Valid() && picture !in dec.dpb.Repr
    requires picture.picOrderCnt == Min(picture.topFieldOrderCnt, picture.bottomFieldOrderCnt)
    requires Distinct(dec.dpb.pics) && AllPossible(dec.MarkingOf(picture), ws)
    requires Each(dec.dpb.pics, NumberIsIndex) && DropsFirst(ws)
    requires ops == SentAll(dec.MarkingOf(picture), ws, |ws|) + [END] + rest
    requires forall i :: 0 <= i < |ops| ==> ops[i].op <= 6
    modifies dec`maxLongTermFrameIdx, dec.dpb`pics, dec.dpb.Repr, picture
    ensures dec.dpb.Valid() && dec.MarkingOf(picture) == Wanted(old(dec.MarkingOf(picture)), ws, |ws|)
  {
    hide SentAll, Wanted, AllPossible, DropsFirst, Effective, Distinct, Each;
    ghost var m := dec.MarkingOf(picture);
    DropsFirstIsRead(m, ws);
    SentAllIsGrantedIff(m, ws, |ws|);
    GrantedSoFar(m, ws, |ws|);
    EffectiveIsSent(m, ws, rest);
    dec.HandleMemoryManagementOpt(picture, ops);
  }

  // ---- A frame misread ------------------------------------------------------------------------------------------

  /** A short-term frame that bears the number of a long-term frame behind it in the list becomes long-term itself, and
      then the other one is to be dropped: the operation finds the first of the two. A frame that has never been
      long-term bears the number 0. */
  lemma StaleNumberTaken(m: Marking, a: nat, b: nat, idx: nat)
    requires a < b < |m.pics| && Distinct(m.pics) && Each(m.pics, NumberIsIndex)
    requires Possible(m, KeepLong(a, idx)) && IsLong(m.pics[b]) && idx != m.pics[b].longTermFrameIdx
    requires m.pics[a].longTermPicNum == m.pics[b].longTermFrameIdx
    ensures var ws := [KeepLong(a, idx), DropLong(b)];
            AllPossible(m, ws) && var r := ApplyTo(m, SentAll(m, ws, 2), 2).pics; IsLong(r[b]) && r[a].ref == Unused
  {
    hide Distinct, Each, Find;
    var ws := [KeepLong(a, idx), DropLong(b)];
    var n := Granted(m, ws[0]);
    assert Wanted(m, ws, 0) == m && Wanted(m, ws, 1) == n && IsLong(n.pics[b]) && n.pics[b] == m.pics[b];
    SentIsGrantedIff(m, ws[0]);
    assert SentAll(m, ws, 1) == [Sent(m, ws[0])];
    assert SentAll(m, ws, 2) == [Sent(m, ws[0]), Sent(n, ws[1])];
    ApplyTwo(m, Sent(m, ws[0]), Sent(n, ws[1]));
    FirstIsStale(m, a, b, idx);
  }

  lemma ApplyTwo(m: Marking, c: Mmco, d: Mmco)
    ensures ApplyTo(m, [c, d], 2) == ApplyMmco(ApplyMmco(m, c), d)
  {
    hide ApplyMmco;
    assert ApplyTo(m, [c, d], 1) == ApplyMmco(ApplyTo(m, [c, d], 0), c);
  }

  lemma FirstIsStale(m: Marking, a: nat, b: nat, idx: nat)
    requires a < b < |m.pics| && Distinct(m.pics) && Each(m.pics, NumberIsIndex)
    requires IsShort(m.pics[a]) && IsLong(m.pics[b]) && idx != m.pics[b].longTermFrameIdx
    requires m.pics[a].longTermPicNum == m.pics[b].longTermFrameIdx
    ensures Find(Granted(m, KeepLong(a, idx)).pics, LongWithPicNum(m.pics[b].longTermFrameIdx)) == a
  {
    var x, r := m.pics[b].longTermFrameIdx, Granted(m, KeepLong(a, idx)).pics;
    assert LongWithPicNum(x)(r[a]);
    forall j | 0 <= j < a
      ensures !LongWithPicNum(x)(r[j])
    {
      assert NumberIsIndex(m.pics[j]) && LongDiffer(m.pics[j], m.pics[b]);
    }
  }

  const ROOMY := Config(H264DpbSpec.Limits(8, 0), 4, 16, false, NormalLatency, false, 0)

  /** The k-th reference frame of a stream, with these operations if any. */
  function Reference(k: nat, ops: seq<Mmco>): Slice {
    Slice(k, 2 * k, k, true, k == 0, false, false, ops != [], ops, 0)
  }

  /** Two reference frames; a third makes the second one long-term with index 0; a fourth makes the first one long-term
      with index 1 and drops the frame of index 0. */
  function StaleStream(): seq<Slice> {
    [Reference(0, []), Reference(1, []), Reference(2, [Mmco(4, 0, 0, 0, 2), Mmco(3, 0, 0, 0, 0), END]),
     Reference(3, [Mmco(3, 2, 0, 1, 0), Mmco(2, 0, 0, 0, 0), END])]
  }

  /** Nothing leaves a buffer with room. */
  lemma RoomyStep(st: State, s: Slice)
    requires ValidNumbers(st, s, ROOMY) && !s.idr && s.isRef && !Resets(s) && |st.pics| < 8
    ensures var g := Start(st, s, ROOMY);
            var m, r := MarkedState(g.st, s, ROOMY), Step(st, s, ROOMY);
            && g.ok && g.st.pics == Map(st.pics, Renumber(s.frameNum, 16))
            && g.st.maxLongTermFrameIdx == st.maxLongTermFrameIdx
            && r.pics == DeleteUnused(m.pics) + [Stored(m.cur)] && r.maxLongTermFrameIdx == m.maxLongTermFrameIdx
  {
    hide MarkedState, Filter, Resets;
    var g := Start(st, s, ROOMY).st;
    MarkedStateAlike(g, s, ROOMY);
    CurrentNumbers(g, s, ROOMY);
    CurrentKeeps(g, s, ROOMY);
    StepSound(st, s, ROOMY);
    var t, cur := Marked(g, s, ROOMY), CurrentPic(g, s, ROOMY);
    assert |t.pics| < 8;
    BumpWhileUnfolds(t, Some(cur), NormalLatency, ROOMY);
    BumpOnceStays(t, cur);
  }

  lemma BumpOnceStays(t: State, cur: Pic)
    requires |t.pics| < 8
    ensures BumpWhile(t, Some(cur), NormalLatency, ROOMY) == t
  {
    BumpWhileUnfolds(t, Some(cur), NormalLatency, ROOMY);
  }

  /** What matters of a stored frame here: its frame_num, its mark, its number and index. */
  predicate Shows(p: Pic, n: int, ref: RefKind, number: int, idx: int) {
    p.frameNum == n && p.ref == ref && p.needed && p.longTermPicNum == number && p.longTermFrameIdx == idx
  }

  lemma KeepsWaiting(pics: seq<Pic>)
    requires forall i :: 0 <= i < |pics| ==> pics[i].needed
    ensures DeleteUnused(pics) == pics
  {
    FilterAll(pics, |pics|, InUse);
  }

  lemma FirstStored()
    ensures var st := Run([Reference(0, [])], ROOMY);
            |st.pics| == 1 && Shows(st.pics[0], 0, ShortTerm, 0, 0)
  {
    var s := Reference(0, []);
    assert [s][..0] == [];
    BumpAllUnfolds(Initial, ROOMY);
    var g := Start(Initial, s, ROOMY);
    assert g.ok && g.st.pics == [];
    var t, cur := Marked(g.st, s, ROOMY), CurrentPic(g.st, s, ROOMY);
    assert t.pics == [];
    BumpOnceStays(t, cur);
  }

  lemma SecondStored(st: State)
    requires Sound(st, ROOMY) && |st.pics| == 1 && Shows(st.pics[0], 0, ShortTerm, 0, 0)
    ensures var r := Step(st, Reference(1, []), ROOMY).pics;
            |r| == 2 && Shows(r[0], 0, ShortTerm, 0, 0) && Shows(r[1], 1, ShortTerm, 0, 0)
  {
    var s := Reference(1, []);
    RoomyStep(st, s);
    var g := Start(st, s, ROOMY).st;
    SlideUnfolds(g.pics, 4);
    KeepsWaiting(g.pics);
  }

  lemma ThirdMarks(m: Marking)
    requires |m.pics| == 2 && m.cur.picNum == 2 && m.pics[0].picNum == 0 && m.pics[1].picNum == 1
    requires Shows(m.pics[0], 0, ShortTerm, 0, 0) && Shows(m.pics[1], 1, ShortTerm, 0, 0)
    ensures var r := ApplyMmco(ApplyMmco(m, Mmco(4, 0, 0, 0, 2)), Mmco(3, 0, 0, 0, 0)).pics;
            |r| == 2 && r[0] == m.pics[0] && r[1] == m.pics[1].(ref := LongTerm, refPic := true, longTermFrameIdx := 0)
  {
    var n := ApplyMmco(m, Mmco(4, 0, 0, 0, 2));
    assert n.pics == m.pics;
    assert ShortWithPicNum(1)(m.pics[1]) && Find(m.pics, ShortWithPicNum(1)) == 1;
    assert Find(m.pics, LongWithIdx(0)) < 0 && FreeIdx(m.pics, 0) == m.pics;
  }

  lemma ThirdStored(st: State)
    requires Sound(st, ROOMY) && |st.pics| == 2
    requires Shows(st.pics[0], 0, ShortTerm, 0, 0) && Shows(st.pics[1], 1, ShortTerm, 0, 0)
    ensures var r := Step(st, StaleStream()[2], ROOMY).pics;
            && |r| == 3 && Shows(r[0], 0, ShortTerm, 0, 0) && Shows(r[1], 1, LongTerm, 0, 0)
            && Shows(r[2], 2, ShortTerm, 0, 0)
  {
    hide Step, ApplyMmco, Start, Filter;
    var s := StaleStream()[2];
    var a, b := Mmco(4, 0, 0, 0, 2), Mmco(3, 0, 0, 0, 0);
    TwoEffective(a, b);
    RoomyStep(st, s);
    var m := MarkingAt(Start(st, s, ROOMY).st, s);
    ThirdMarks(m);
    ApplyTwo(m, a, b);
    SameCurrentAfter(m, a, b);
    KeepsWaiting(MarkedState(Start(st, s, ROOMY).st, s, ROOMY).pics);
  }

  /** These operations leave the current frame alone. */
  lemma SameCurrentAfter(m: Marking, a: Mmco, b: Mmco)
    requires a.op < 5 && b.op < 5
    ensures ApplyMmco(ApplyMmco(m, a), b).cur == m.cur
  {
    hide FreeIdx, Find;
  }

  lemma TwoEffective(a: Mmco, b: Mmco)
    requires !IsEnd(a) && !IsEnd(b)
    ensures Effective([a, b, END]) == [a, b]
    ensures a.op != 5 && b.op != 5 ==> !ResetsTo([a, b], 2)
  {
    var ops := [a, b, END];
    assert IsEnd(ops[2]) && !IsEnd(ops[0]) && !IsEnd(ops[1]);
    assert !ResetsTo([a, b], 0);
    assert a.op != 5 ==> !ResetsTo([a, b], 1);
  }

  /** Operation 3 finds the first frame, no other holds index 1, and operation 2 finds the first frame again. */
  lemma FourthMarks(m: Marking)
    requires |m.pics| == 3 && m.cur.picNum == 3 && m.pics[0].picNum == 0 && m.pics[2].picNum == 2
    requires Shows(m.pics[0], 0, ShortTerm, 0, 0) && Shows(m.pics[1], 1, LongTerm, 0, 0)
    requires Shows(m.pics[2], 2, ShortTerm, 0, 0)
    ensures var r := ApplyMmco(ApplyMmco(m, Mmco(3, 2, 0, 1, 0)), Mmco(2, 0, 0, 0, 0)).pics;
            && |r| == 3 && r[0] == m.pics[0].(ref := Unused, refPic := true, longTermFrameIdx := 1)
            && r[1] == m.pics[1] && r[2] == m.pics[2]
  {
    assert ShortWithPicNum(0)(m.pics[0]) && Find(m.pics, ShortWithPicNum(0)) == 0;
    assert Find(m.pics, LongWithIdx(1)) < 0 && FreeIdx(m.pics, 1) == m.pics;
    var n := ApplyMmco(m, Mmco(3, 2, 0, 1, 0)).pics;
    assert n == m.pics[0 := MakeLong(1)(m.pics[0])];
    assert LongWithPicNum(0)(n[0]) && Find(n, LongWithPicNum(0)) == 0;
  }

  lemma FourthStored(st: State)
    requires Sound(st, ROOMY) && |st.pics| == 3 && Shows(st.pics[2], 2, ShortTerm, 0, 0)
    requires Shows(st.pics[0], 0, ShortTerm, 0, 0) && Shows(st.pics[1], 1, LongTerm, 0, 0)
    ensures var r := Step(st, StaleStream()[3], ROOMY).pics;
            && |r| == 4 && r[0].frameNum == 0 && r[0].ref == Unused && r[1].frameNum == 1 && r[1].ref == LongTerm
  {
    hide Step, ApplyMmco, Start, Filter;
    var s := StaleStream()[3];
    var a, b := Mmco(3, 2, 0, 1, 0), Mmco(2, 0, 0, 0, 0);
    TwoEffective(a, b);
    RoomyStep(st, s);
    var m := MarkingAt(Start(st, s, ROOMY).st, s);
    FourthMarks(m);
    ApplyTwo(m, a, b);
    KeepsWaiting(MarkedState(Start(st, s, ROOMY).st, s, ROOMY).pics);
  }

  /** A run of a new decoder: the fourth frame's operations drop the frame that has just become long-term, and the one
      that was to be dropped stays. */
  lemma StaleNumberInRun()
    ensures Numbered(StaleStream(), ROOMY)
    ensures var r := Run(StaleStream(), ROOMY).pics;
            && |r| == 4 && r[0].frameNum == 0 && r[0].ref == Unused && r[1].frameNum == 1 && r[1].ref == LongTerm
  {
    hide Step, Shows;
    var ss := StaleStream();
    assert ss[..1] == [ss[0]] && ss[..2][..1] == ss[..1] && ss[..3][..2] == ss[..2];
    assert ss[..2] != [] && ss[..3] != [] && ss[..2][1] == ss[1] && ss[..3][2] == ss[2];
    FirstStored();
    SecondStored(Run(ss[..1], ROOMY));
    ThirdStored(Run(ss[..2], ROOMY));
    FourthStored(Run(ss[..3], ROOMY));
  }
}
