/** The H.265 decoder object: reference picture sets, the steps before and after decoding a picture,
    and the delayed output queue. Its methods are proved to follow `H265Machine`. */
module H265Decoder {
  import opened Seqs
  import opened H265DpbSpec
  import opened H265Marking
  import opened H265Machine
  import Machine = H265Machine
  import opened H265Dpb

  function NumberOf(p: Picture): nat { p.systemFrameNumber }

  /** Each set array has room for the entries the slice names. */
  predicate Fits(r: Rps) {
    && |r.ltCurr| <= MAX_REF_PICS && |r.ltFoll| <= MAX_REF_PICS
    && |r.stBefore| <= MAX_REF_PICS && |r.stAfter| <= MAX_REF_PICS && |r.stFoll| <= MAX_REF_PICS
  }

  /** The array holds the pictures at positions s of the list, null where s has no position, and null behind. */
  ghost predicate Holds(a: array<Picture?>, ps: seq<Picture>, s: seq<int>)
    reads a
  {
    && |s| <= a.Length
    && (forall k :: 0 <= k < |s| ==> s[k] < |ps| && a[k] == if s[k] < 0 then null else ps[s[k]])
    && (forall k :: |s| <= k < a.Length ==> a[k] == null)
  }

  class Decoder {
    const dpb: Dpb
    const ltCurr: array<Picture?>
    const ltFoll: array<Picture?>
    const stBefore: array<Picture?>
    const stAfter: array<Picture?>
    const stFoll: array<Picture?>
    var outputQueue: seq<Picture>
    var preferredOutputDelay: nat
    var delivered: seq<Picture>  // the pictures handed to the subclass, in order
    ghost var emitted: seq<Pic>
    ghost var finished: seq<Pic>
    ghost var discarded: seq<Pic>

    ghost predicate Separate() {
      && ltCurr.Length == ltFoll.Length == stBefore.Length == stAfter.Length == stFoll.Length == MAX_REF_PICS
      && ltCurr != ltFoll && ltCurr != stBefore && ltCurr != stAfter && ltCurr != stFoll
      && ltFoll != stBefore && ltFoll != stAfter && ltFoll != stFoll
      && stBefore != stAfter && stBefore != stFoll && stAfter != stFoll
    }

    ghost predicate Valid()
      reads this, dpb, dpb.Repr
    {
      && Separate()
      && dpb.Valid()
      && Map(delivered + outputQueue, NumberOf) == Map(emitted, IdOf)
    }

    ghost function Value(): State
      reads this, dpb
    {
      State(dpb.pics, emitted, finished, discarded)
    }

    constructor ()
      ensures Valid() && fresh(dpb) && Value() == Initial && outputQueue == [] && delivered == []
    {
      dpb := new Dpb();
      ltCurr := new Picture?[MAX_REF_PICS](_ => null);
      ltFoll := new Picture?[MAX_REF_PICS](_ => null);
      stBefore := new Picture?[MAX_REF_PICS](_ => null);
      stAfter := new Picture?[MAX_REF_PICS](_ => null);
      stFoll := new Picture?[MAX_REF_PICS](_ => null);
      outputQueue, preferredOutputDelay, delivered := [], 0, [];
      emitted, finished, discarded := [], [], [];
    }

    // ---- Output ---------------------------------------------------------------------------------

    method DrainOutputQueue(num: nat)
      modifies `outputQueue, `delivered
      ensures delivered + outputQueue == old(delivered + outputQueue)
      ensures |outputQueue| == if old(|outputQueue|) <= num then old(|outputQueue|) else num
    {
      while |outputQueue| > num
        invariant delivered + outputQueue == old(delivered + outputQueue)
        invariant old(|outputQueue|) <= num ==> |outputQueue| == old(|outputQueue|)
        invariant old(|outputQueue|) > num ==> |outputQueue| >= num
      {
        ghost var all := delivered + outputQueue;
        delivered, outputQueue := delivered + [outputQueue[0]], outputQueue[1..];
        assert delivered + outputQueue == all;
      }
    }

    method DoOutputPicture(picture: Picture)
      requires Map(delivered + outputQueue, NumberOf) == Map(emitted, IdOf)
      modifies `outputQueue, `delivered, `emitted
      ensures Map(delivered + outputQueue, NumberOf) == Map(emitted, IdOf)
      ensures emitted == old(emitted) + [picture.View()]
      ensures old(|outputQueue|) <= preferredOutputDelay ==> |outputQueue| <= preferredOutputDelay
    {
      ghost var all := delivered + outputQueue;
      MapLast(all + [picture], NumberOf);
      MapLast(emitted + [picture.View()], IdOf);
      outputQueue, emitted := outputQueue + [picture], emitted + [picture.View()];
      assert delivered + outputQueue == all + [picture];
      assert (all + [picture])[..|all|] == all && emitted[..|emitted| - 1] == old(emitted);
      DrainOutputQueue(preferredOutputDelay);
    }

    /** One turn of a bumping loop. */
    method BumpAndOutput(drain: bool) returns (done: bool)
      requires Valid()
      modifies `outputQueue, `delivered, `emitted, dpb, dpb.Repr
      ensures Valid() && dpb.maxNumPics == old(dpb.maxNumPics) && dpb.Repr == old(dpb.Repr)
      ensures done <==> Lowest(old(dpb.pics)) < 0
      ensures Value() == if done then old(Value()) else BumpOnce(old(Value()), drain)
      ensures !drain ==> forall p :: p in old(dpb.picList) && old(p.ref) ==> p in dpb.picList && p.ref
    {
      var picture := dpb.Bump(drain);
      if picture == null {
        return true;
      }
      DoOutputPicture(picture);
      done := false;
    }

    method BumpWhileNeeded(reorder: nat, latency: nat, buffering: nat, ghost lim: Limits)
      requires Valid() && lim.maxNumPics == dpb.maxNumPics && lim.reorder == reorder && lim.latency == latency
      modifies `outputQueue, `delivered, `emitted, dpb, dpb.Repr
      ensures Valid() && dpb.maxNumPics == old(dpb.maxNumPics) && dpb.Repr == old(dpb.Repr)
      ensures Value() == BumpWhile(old(Value()), lim, buffering)
      ensures forall p :: p in old(dpb.picList) && old(p.ref) ==> p in dpb.picList && p.ref
    {
      hide BumpWhile, NeedsBump, Shows, Injective, Map;
      var needed := dpb.NeedsBump(reorder, latency, buffering);
      while needed
        invariant Valid() && dpb.maxNumPics == old(dpb.maxNumPics) && dpb.Repr == old(dpb.Repr)
        invariant needed <==> NeedsBump(dpb.pics, lim.maxNumPics, reorder, latency, buffering)
        invariant forall p :: p in old(dpb.picList) && old(p.ref) ==> p in dpb.picList && p.ref
        invariant BumpWhile(Value(), lim, buffering) == BumpWhile(old(Value()), lim, buffering)
        decreases Count(dpb.pics, Waiting)
      {
        BumpWhileUnfolds(Value(), lim, buffering);
        var done := BumpAndOutput(false);
        if done {
          break;
        }
        needed := dpb.NeedsBump(reorder, latency, buffering);
      }
      BumpWhileUnfolds(Value(), lim, buffering);
    }

    method BumpUntilEmpty(drain: bool)
      requires Valid()
      modifies `outputQueue, `delivered, `emitted, dpb, dpb.Repr
      ensures Valid() && dpb.maxNumPics == old(dpb.maxNumPics) && dpb.Repr == old(dpb.Repr)
      ensures Value() == BumpAll(old(Value()), drain)
      ensures !drain ==> forall p :: p in old(dpb.picList) && old(p.ref) ==> p in dpb.picList && p.ref
    {
      var done := false;
      while !done
        invariant Valid() && dpb.maxNumPics == old(dpb.maxNumPics) && dpb.Repr == old(dpb.Repr)
        invariant !drain ==> forall p :: p in old(dpb.picList) && old(p.ref) ==> p in dpb.picList && p.ref
        invariant BumpAll(Value(), drain) == BumpAll(old(Value()), drain)
        invariant done ==> Lowest(dpb.pics) < 0
        decreases !done, Count(dpb.pics, Waiting)
      {
        done := BumpAndOutput(drain);
      }
    }

    /** End of stream: everything waiting is emitted, everything queued is delivered. */
    method DrainInternal()
      requires Valid()
      modifies this, dpb, dpb.Repr
      ensures Valid() && Value() == Drain(old(Value()))
      ensures outputQueue == [] && Map(delivered, NumberOf) == Map(emitted, IdOf)
    {
      BumpUntilEmpty(true);
      DrainOutputQueue(0);
      assert delivered + outputQueue == delivered;
      dpb.Clear();
    }

    // ---- Reference picture sets -----------------------------------------------------------------

    method ClearRefPicSets()
      requires Separate()
      modifies ltCurr, ltFoll, stBefore, stAfter, stFoll
      ensures forall a :: a in {ltCurr, ltFoll, stBefore, stAfter, stFoll} ==> Holds(a, dpb.picList, [])
    {
      for i := 0 to MAX_REF_PICS
        invariant forall k :: 0 <= k < i ==> ltCurr[k] == null && ltFoll[k] == null
        invariant forall k :: 0 <= k < i ==> stBefore[k] == null && stAfter[k] == null && stFoll[k] == null
      {
        ltCurr[i], ltFoll[i], stBefore[i], stAfter[i], stFoll[i] := null, null, null, null, null;
      }
    }

    method FindLongTerm(a: array<Picture?>, es: seq<LtEntry>)
      requires dpb.Valid() && |es| <= a.Length && Holds(a, dpb.picList, [])
      modifies a
      ensures Holds(a, dpb.picList, LongSet(dpb.pics, es))
    {
      hide Count, Injective, Find, RefWithPoc, RefWithLsb;
      for i := 0 to |es|
        invariant forall k :: 0 <= k < i ==>
                    var x := FindLong(dpb.pics, es[k]); a[k] == if x < 0 then null else dpb.picList[x]
        invariant forall k :: i <= k < a.Length ==> a[k] == null
      {
        if !es[i].msbPresent {
          a[i] := dpb.GetRefByPocLsb(es[i].poc);
        } else {
          a[i] := dpb.GetRefByPoc(es[i].poc);
        }
      }
    }

    method FindShortTerm(a: array<Picture?>, pocs: seq<int>)
      requires dpb.Valid() && |pocs| <= a.Length && Holds(a, dpb.picList, [])
      modifies a
      ensures Holds(a, dpb.picList, ShortSet(dpb.pics, pocs))
    {
      hide Count, Injective, Find, ShortRefWithPoc;
      for i := 0 to |pocs|
        invariant forall k :: 0 <= k < i ==>
                    var x := Find(dpb.pics, ShortRefWithPoc(pocs[k])); a[k] == if x < 0 then null else dpb.picList[x]
        invariant forall k :: i <= k < a.Length ==> a[k] == null
      {
        a[i] := dpb.GetShortRefByPoc(pocs[i]);
      }
    }

    method MarkLongTerm(a: array<Picture?>, n: nat, ghost s: seq<int>)
      requires dpb.Valid() && Holds(a, dpb.picList, s) && n == |s|
      modifies dpb`pics, dpb.Repr
      ensures dpb.Valid() && dpb.pics == MarkLong(old(dpb.pics), s)
    {
      for i := 0 to n
        invariant dpb.pics == old(dpb.pics)
        invariant forall j :: 0 <= j < |dpb.picList| ==>
                    dpb.picList[j].View() == if j in s[..i] then AsLong(dpb.pics[j]) else dpb.pics[j]
      {
        assert s[..i + 1] == s[..i] + [s[i]];
        if a[i] != null {
          a[i].ref := true;
          a[i].longTerm := true;
        }
      }
      assert s[..n] == s;
      CountSame(dpb.pics, Waiting, MarkLong(dpb.pics, s), Waiting, |dpb.pics|);
      dpb.pics := MarkLong(dpb.pics, s);
    }

    method HasEntryInRps(p: Picture, a: array<Picture?>, n: nat, ghost s: seq<int>) returns (b: bool)
      requires dpb.Valid() && Holds(a, dpb.picList, s) && n == |s|
      ensures b <==> HasEntry(dpb.pics, s, p.picOrderCnt)
    {
      for i := 0 to n
        invariant !HasEntryTo(dpb.pics, s, i, p.picOrderCnt)
      {
        if a[i] != null && a[i].picOrderCnt == p.picOrderCnt {
          HasEntryMeaning(dpb.pics, s, n, p.picOrderCnt);
          assert dpb.pics[s[i]].poc == p.picOrderCnt;
          return true;
        }
      }
      b := false;
    }

    /** All five arrays hold the sets s of positions in a list. */
    ghost predicate HoldsFrom(list: seq<Picture>, s: Sets)
      reads this, ltCurr, ltFoll, stBefore, stAfter, stFoll
    {
      && Holds(ltCurr, list, s.ltCurr)
      && Holds(ltFoll, list, s.ltFoll)
      && Holds(stBefore, list, s.stBefore)
      && Holds(stAfter, list, s.stAfter)
      && Holds(stFoll, list, s.stFoll)
    }

    ghost predicate HoldsAll(s: Sets)
      reads this, dpb, ltCurr, ltFoll, stBefore, stAfter, stFoll
    {
      HoldsFrom(dpb.picList, s)
    }

    method NamedInRps(p: Picture, r: Rps, ghost s: Sets) returns (b: bool)
      requires Separate() && dpb.Valid() && HoldsAll(s)
      requires |s.ltCurr| == |r.ltCurr| && |s.ltFoll| == |r.ltFoll| && |s.stBefore| == |r.stBefore|
      requires |s.stAfter| == |r.stAfter| && |s.stFoll| == |r.stFoll|
      ensures b <==> InSets(dpb.pics, s, p.picOrderCnt)
    {
      b := HasEntryInRps(p, ltCurr, |r.ltCurr|, s.ltCurr);
      if !b {
        b := HasEntryInRps(p, ltFoll, |r.ltFoll|, s.ltFoll);
      }
      if !b {
        b := HasEntryInRps(p, stAfter, |r.stAfter|, s.stAfter);
      }
      if !b {
        b := HasEntryInRps(p, stBefore, |r.stBefore|, s.stBefore);
      }
      if !b {
        b := HasEntryInRps(p, stFoll, |r.stFoll|, s.stFoll);
      }
    }

    /** Every picture that no set names stops being a reference. */
    method UnmarkUnnamed(r: Rps, ghost s: Sets)
      requires Separate() && dpb.Valid() && HoldsAll(s)
      requires |s.ltCurr| == |r.ltCurr| && |s.ltFoll| == |r.ltFoll| && |s.stBefore| == |r.stBefore|
      requires |s.stAfter| == |r.stAfter| && |s.stFoll| == |r.stFoll|
      modifies dpb`pics, dpb.Repr
      ensures dpb.Valid() && |dpb.pics| == old(|dpb.pics|)
      ensures forall i :: 0 <= i < |dpb.pics| ==>
                dpb.pics[i] == if InSets(old(dpb.pics), s, old(dpb.pics)[i].poc) then old(dpb.pics)[i]
                               else AsUnused(old(dpb.pics)[i])
    {
      hide InSets, Count, Injective;
      ghost var m := dpb.pics;
      for i := 0 to |dpb.picList|
        invariant dpb.Valid() && |dpb.pics| == |m|
        invariant forall j :: 0 <= j < i ==> dpb.pics[j] == if InSets(m, s, m[j].poc) then m[j] else AsUnused(m[j])
        invariant forall j :: i <= j < |m| ==> dpb.pics[j] == m[j]
      {
        var p := dpb.picList[i];
        InSetsSamePocs(dpb.pics, m, s, p.picOrderCnt);
        var named := NamedInRps(p, r, s);
        if !named {
          dpb.Unmark(p, i);
        }
      }
    }

    /** The long-term half of (8-6): lookup, then marking. */
    method FillLongTermSets(r: Rps)
      requires Separate() && dpb.Valid() && Fits(r)
      requires Holds(ltCurr, dpb.picList, []) && Holds(ltFoll, dpb.picList, [])
      modifies dpb`pics, dpb.Repr, ltCurr, ltFoll
      ensures dpb.Valid() && dpb.pics == LongMarked(old(dpb.pics), r)
      ensures Holds(ltCurr, dpb.picList, LongSet(old(dpb.pics), r.ltCurr))
      ensures Holds(ltFoll, dpb.picList, LongSet(old(dpb.pics), r.ltFoll))
    {
      ghost var pics := dpb.pics;
      ghost var c, f := LongSet(pics, r.ltCurr), LongSet(pics, r.ltFoll);
      FindLongTerm(ltCurr, r.ltCurr);
      FindLongTerm(ltFoll, r.ltFoll);
      MarkLongTwice(pics, c, f);
      MarkLongTerm(ltCurr, |r.ltCurr|, c);
      MarkLongTerm(ltFoll, |r.ltFoll|, f);
    }

    method FillRefPicSets(r: Rps)
      requires Separate() && dpb.Valid() && Fits(r)
      modifies dpb`pics, dpb.Repr, ltCurr, ltFoll, stBefore, stAfter, stFoll
      ensures dpb.Valid() && dpb.pics == LongMarked(old(dpb.pics), r)
      ensures HoldsAll(Derive(old(dpb.pics), r))
    {
      hide MarkLong, FindLong;
      ClearRefPicSets();
      FillLongTermSets(r);
      FindShortTerm(stBefore, r.stBefore);
      FindShortTerm(stAfter, r.stAfter);
      FindShortTerm(stFoll, r.stFoll);
    }

    method DeriveAndMarkRps(r: Rps)
      requires Valid() && Fits(r)
      modifies dpb`pics, dpb.Repr, ltCurr, ltFoll, stBefore, stAfter, stFoll
      ensures Valid() && dpb.pics == Mark(old(dpb.pics), r)
      ensures HoldsAll(Derive(old(dpb.pics), r))
    {
      hide InSets, LongMarked;
      ghost var pics := dpb.pics;
      ghost var s := Derive(pics, r);
      FillRefPicSets(r);
      ghost var m := dpb.pics;
      UnmarkUnnamed(r, s);
      forall i | 0 <= i < |m|
        ensures dpb.pics[i] == Mark(pics, r)[i]
      {
        LongMarkedKeepsPocs(pics, r);
        InSetsSamePocs(m, pics, s, pics[i].poc);
      }
    }

    // ---- One picture ----------------------------------------------------------------------------

    /** The loop of `ClearDpb`: the waiting pictures are taken out in output order and released. */
    method ThrowAway() returns (ghost gone: seq<Pic>)
      requires dpb.Valid()
      modifies dpb, dpb.Repr
      ensures dpb.Valid() && dpb.maxNumPics == old(dpb.maxNumPics) && dpb.Repr == old(dpb.Repr)
      ensures gone == BumpAll(old(Value()).(emitted := []), true).emitted
    {
      hide BumpAll, Count;
      ghost var start := Value().(emitted := []);
      gone := [];
      var done := false;
      while !done
        invariant dpb.Valid() && dpb.maxNumPics == old(dpb.maxNumPics) && dpb.Repr == old(dpb.Repr)
        invariant BumpAll(start.(pics := dpb.pics, emitted := gone), true) == BumpAll(start, true)
        invariant done ==> Lowest(dpb.pics) < 0
        decreases !done, Count(dpb.pics, Waiting)
      {
        BumpAllUnfolds(start.(pics := dpb.pics, emitted := gone), true);
        OutputCountOfLowest(dpb.pics);
        var picture := dpb.Bump(true);
        if picture == null {
          done := true;
        } else {
          gone := gone + [picture.View()];
        }
      }
      BumpAllUnfolds(start.(pics := dpb.pics, emitted := gone), true);
    }

    /** `clear_dpb`, when not flushing: what waits in the buffer or in the queue is thrown away. */
    method ClearDpb()
      requires Valid()
      modifies `outputQueue, `emitted, `discarded, dpb, dpb.Repr
      ensures Valid() && dpb.maxNumPics == old(dpb.maxNumPics) && dpb.Repr == old(dpb.Repr)
      ensures |delivered| + old(|outputQueue|) == old(|emitted|)
      ensures dpb.pics == [] && outputQueue == [] && emitted == old(emitted)[..|delivered|]
      ensures discarded == old(discarded) + old(emitted)[|delivered|..]
                        + BumpAll(old(Value()).(emitted := []), true).emitted
    {
      hide BumpAll, Map, Shows, Injective, Count;
      QueueIsTail();
      ghost var k := |delivered|;
      ghost var gone := ThrowAway();
      discarded := discarded + emitted[k..] + gone;
      emitted, outputQueue := emitted[..k], [];
      dpb.Clear();
    }

    /** What is queued is what was output last. */
    lemma QueueIsTail()
      requires Map(delivered + outputQueue, NumberOf) == Map(emitted, IdOf)
      ensures |delivered| + |outputQueue| == |emitted|
      ensures Map(delivered + [], NumberOf) == Map(emitted[..|delivered|], IdOf)
    {
      assert |Map(delivered + outputQueue, NumberOf)| == |Map(emitted, IdOf)|;
      forall i | 0 <= i < |delivered|
        ensures NumberOf((delivered + [])[i]) == IdOf(emitted[..|delivered|][i])
      {
        assert Map(delivered + outputQueue, NumberOf)[i] == Map(emitted, IdOf)[i];
      }
    }

    method DpbInit(s: Slice, reorder: nat, latency: nat, bufferingMinus1: nat, ghost lim: Limits)
      requires Valid() && lim == Limits(dpb.maxNumPics, reorder, latency, bufferingMinus1)
      modifies this, dpb, dpb.Repr
      ensures Valid() && dpb.maxNumPics == old(dpb.maxNumPics) && dpb.Repr == old(dpb.Repr)
      ensures Value() == Machine.DpbInit(old(Value()), s, lim)
      ensures !(s.ClearDpb() && s.noOutputOfPriorPics) ==>
                forall p :: p in old(dpb.picList) && old(p.ref) ==> p in dpb.picList && p.ref
    {
      hide BumpWhile, BumpAll, Shows, Injective, Count, Map;
      if s.ClearDpb() {
        if s.noOutputOfPriorPics {
          DrainOutputQueue(0);
          ghost var told := emitted;
          ClearDpb();
          assert |delivered| == |told| && told[..|told|] == told && told[|told|..] == [];
          assert discarded == old(discarded) + BumpAll(old(Value()).(emitted := []), true).emitted;
        } else {
          dpb.DeleteUnused();
          BumpUntilEmpty(false);
        }
      } else {
        dpb.DeleteUnused();
        BumpWhileNeeded(reorder, latency, bufferingMinus1 + 1, lim);
      }
    }

    /** The pictures in a set array are stored references. */
    ghost predicate Kept(a: array<Picture?>)
      reads dpb, dpb.Repr, a
    {
      forall k :: 0 <= k < a.Length && a[k] != null ==> a[k] in dpb.Repr && a[k] in dpb.picList && a[k].ref
    }

    lemma NamedAreKept(pics: seq<Pic>, r: Rps)
      requires Valid() && |pics| == |dpb.pics| && dpb.pics == Mark(pics, r) && HoldsAll(Derive(pics, r))
      ensures Kept(ltCurr) && Kept(ltFoll) && Kept(stBefore) && Kept(stAfter) && Kept(stFoll)
      ensures (forall i :: 0 <= i < |pics| ==> !pics[i].ref) ==>
                forall k :: 0 <= k < MAX_REF_PICS ==>
                  && ltCurr[k] == null && ltFoll[k] == null
                  && stBefore[k] == null && stAfter[k] == null && stFoll[k] == null
    {
      hide Mark, Derive;
      var s := Derive(pics, r);
      SetsNameReferences(pics, r);
      forall i | 0 <= i < |pics| && i in AllEntries(s)
        ensures dpb.picList[i].ref
      {
        SetsMatchMarks(pics, r, i);
        assert dpb.picList[i].View() == dpb.pics[i];
      }
    }

    /** `start_current_picture`: the new reference picture set, then C.5.2.2. */
    method StartPicture(s: Slice, reorder: nat, latency: nat, bufferingMinus1: nat, ghost lim: Limits)
      requires Valid() && Fits(s.rps) && lim == Limits(dpb.maxNumPics, reorder, latency, bufferingMinus1)
      modifies this, dpb, dpb.Repr, ltCurr, ltFoll, stBefore, stAfter, stFoll
      ensures Valid() && dpb.maxNumPics == old(dpb.maxNumPics) && dpb.Repr == old(dpb.Repr)
      ensures Value() == Start(old(Value()), s, lim)
      ensures HoldsFrom(old(dpb.picList), Derive(Unmarked(old(dpb.pics), s), s.rps))
      ensures Kept(ltCurr) && Kept(ltFoll) && Kept(stBefore) && Kept(stAfter) && Kept(stFoll)
    {
      hide Mark, Machine.DpbInit, Shows, Injective, Count, Map, Derive;
      if s.UnmarkAll() {
        dpb.MarkAllNonRef();
      }
      ghost var pics := dpb.pics;
      DeriveAndMarkRps(s.rps);
      NamedAreKept(pics, s.rps);
      DpbInit(s, reorder, latency, bufferingMinus1, lim);
    }

    /** `finish_picture`: the decoded picture is stored, then the additional bumping of C.5.2.3. */
    method FinishPicture(picture: Picture, s: Slice, reorder: nat, latency: nat, ghost lim: Limits)
      requires Valid() && picture !in dpb.Repr && picture.View() == NewPic(s)
      requires lim.maxNumPics == dpb.maxNumPics && lim.reorder == reorder && lim.latency == latency
      modifies this, dpb, dpb.Repr, picture
      ensures Valid() && dpb.maxNumPics == old(dpb.maxNumPics) && dpb.Repr == old(dpb.Repr) + {picture}
      ensures Value() == Finish(old(Value()), s, lim)
    {
      hide BumpWhile, Shows, Injective, Map;
      dpb.DeleteUnused();
      dpb.Add(picture);
      finished := finished + [NewPic(s)];
      BumpWhileNeeded(reorder, latency, 0, lim);
    }
  }
}
