/** What a NAL unit is read as, by what stands before it in the stream: which IRAP pictures start a coded video
    sequence, which RASL pictures are dropped, and what an IRAP picture does to the pictures that wait. */
module H265Rasl {
  import opened Seqs
  import opened H265DpbSpec
  import opened H265Machine
  import opened H265Run
  import opened H265Nal
  import H265Poc

  /** NAL unit types by number (table 7-1): RASL, BLA, IDR, CRA, all that count as IRAP, and those that are decoded. */
  lemma TypeTable(t: nat, h: Header)
    ensures IsRasl(t) <==> t == 8 || t == 9
    ensures IsBla(t) <==> t == 16 || t == 17 || t == 18
    ensures H265Poc.IsIdr(t) <==> t == 19 || t == 20
    ensures t == CRA_NUT <==> t == 21
    ensures H265Poc.IsIrap(t) <==> t >= 16 && t <= 23
    ensures IsSlice(SliceNal(t, h)) <==> t < 10 || (t >= 16 && t < 22)
  {
  }

  /** An end of sequence stands between here and the last slice. */
  ghost predicate BehindEos(ns: seq<Nal>) {
    exists e :: 0 <= e < |ns| && ns[e].EndOfSequence? && forall k :: e < k < |ns| ==> !IsSlice(ns[k])
  }

  /** An IRAP picture of this type would start a coded video sequence here. */
  ghost predicate StartsSequence(ns: seq<Nal>, t: nat) {
    H265Poc.IsIdr(t) || IsBla(t) || (t == CRA_NUT && AtRestart(ns)) || BehindEos(ns)
  }

  predicate StartsIrap(n: Nal) { StartsPicture(n) && H265Poc.IsIrap(n.nalType) }

  /** The last IRAP picture, k, started a coded video sequence. */
  ghost predicate LastIrapStarts(ns: seq<Nal>) {
    exists k :: 0 <= k < |ns| && StartsIrap(ns[k]) && (forall j :: k < j < |ns| ==> !StartsIrap(ns[j]))
             && StartsSequence(ns[..k], ns[k].nalType)
  }

  lemma {:induction false} EosMeaning(ns: seq<Nal>)
    ensures FlagsAfter(ns).prevNalIsEos <==> BehindEos(ns)
  {
    if ns != [] {
      var before, n := ns[..|ns| - 1], ns[|ns| - 1];
      EosMeaning(before);
      if BehindEos(before) && !IsSlice(n) {
        var e :| 0 <= e < |before| && before[e].EndOfSequence? && forall k :: e < k < |before| ==> !IsSlice(before[k]);
        assert ns[e].EndOfSequence? && forall k :: e < k < |ns| ==> !IsSlice(ns[k]);
      }
      if BehindEos(ns) && !n.EndOfSequence? {
        var e :| 0 <= e < |ns| && ns[e].EndOfSequence? && forall k :: e < k < |ns| ==> !IsSlice(ns[k]);
        assert before[e].EndOfSequence? && forall k :: e < k < |before| ==> !IsSlice(before[k]);
        assert !IsSlice(ns[|ns| - 1]);
      }
    }
  }

  lemma StartsSequenceMeaning(ns: seq<Nal>, t: nat)
    ensures NoRaslOutput(FlagsAfter(ns), t) <==> StartsSequence(ns, t)
  {
    EosMeaning(ns);
    NewBitstreamMeaning(ns);
  }

  lemma {:induction false} LastIrapMeaning(ns: seq<Nal>)
    ensures FlagsAfter(ns).associatedNoRasl <==> LastIrapStarts(ns)
  {
    hide StartsSequence, NoRaslOutput;
    if ns != [] {
      var before, n := ns[..|ns| - 1], ns[|ns| - 1];
      LastIrapMeaning(before);
      StartsSequenceMeaning(before, if StartsIrap(n) then n.nalType else 0);
      if StartsIrap(n) {
        assert LastIrapStarts(ns) <==> StartsSequence(ns[..|ns| - 1], n.nalType);
      } else {
        NotIrapKeeps(before, n);
        assert ns == before + [n];
      }
    }
  }

  /** Other NAL units do not move the last IRAP picture. */
  lemma NotIrapKeeps(ns: seq<Nal>, n: Nal)
    requires !StartsIrap(n)
    ensures LastIrapStarts(ns + [n]) <==> LastIrapStarts(ns)
  {
    hide StartsSequence;
    var more := ns + [n];
    if LastIrapStarts(ns) {
      var k :| 0 <= k < |ns| && StartsIrap(ns[k]) && (forall j :: k < j < |ns| ==> !StartsIrap(ns[j]))
            && StartsSequence(ns[..k], ns[k].nalType);
      assert more[..k] == ns[..k] && more[k] == ns[k];
      assert forall j :: k < j < |more| ==> !StartsIrap(more[j]);
    }
    if LastIrapStarts(more) {
      var k :| 0 <= k < |more| && StartsIrap(more[k]) && (forall j :: k < j < |more| ==> !StartsIrap(more[j]))
            && StartsSequence(more[..k], more[k].nalType);
      assert more[..k] == ns[..k] && more[k] == ns[k];
      assert forall j :: k < j < |ns| ==> more[j] == ns[j];
    }
  }

  /** Over every stream: a slice that begins a picture yields no picture if and only if it is RASL and the last IRAP
      picture before it started a coded video sequence; otherwise it yields one picture, that of its header. */
  lemma RaslDropped(ns: seq<Nal>, n: Nal)
    requires StartsPicture(n)
    ensures IsRasl(n.nalType) && LastIrapStarts(ns) ==> Pictures(ns + [n]) == Pictures(ns)
    ensures !(IsRasl(n.nalType) && LastIrapStarts(ns)) ==>
              var r, h := Pictures(ns + [n]), n.header;
              && |r| == |Pictures(ns)| + 1 && r[..|Pictures(ns)|] == Pictures(ns)
              && var s := r[|Pictures(ns)|];
                 && s.id == h.id && s.poc == h.poc && s.pocLsb == h.pocLsb && s.outputFlag == h.picOutput
                 && s.rps == if H265Poc.IsIdr(n.nalType) then NoRps else h.rps
  {
    hide LastIrapStarts, NoRaslOutput;
    LastIrapMeaning(ns);
    assert (ns + [n])[..|ns|] == ns;
  }

  // ---- What waits ----------------------------------------------------------------------------------------------

  /** Over every stream, at an IRAP picture that starts a coded video sequence: behind an end of bitstream nothing is
      thrown away. Elsewhere the buffer is emptied: a CRA picture, or the flag in the header, throws away what waited,
      and otherwise all of it is output; counted by any property. */
  lemma IrapFlushes(ns: seq<Nal>, n: Nal, lim: Limits, q: Pic -> bool)
    requires StartsIrap(n) && StartsSequence(ns, n.nalType) && Stable(q)
    ensures var st, t := Play(ns, lim), Start(Play(ns, lim), SliceOf(FlagsAfter(ns), n), lim);
            var waiting := Count(st.pics, WaitingAnd(q));
            && st.emitted <= t.emitted && st.discarded <= t.discarded
            && (AtRestart(ns) ==> t.discarded == st.discarded)
            && (!AtRestart(ns) ==> t.pics == [])
            && (!AtRestart(ns) && (n.nalType == CRA_NUT || n.header.noOutputOfPriorPics) ==>
                  t.emitted == st.emitted && Count(t.discarded[|st.discarded|..], q) == waiting)
            && (!AtRestart(ns) && n.nalType != CRA_NUT && !n.header.noOutputOfPriorPics ==>
                  t.discarded == st.discarded && Count(t.emitted[|st.emitted|..], q) == waiting)
  {
    hide Run, Start, Count, Stable, NoRaslOutput, Conserved, StartsSequence;
    var s := SliceOf(FlagsAfter(ns), n);
    StartsSequenceMeaning(ns, n.nalType);
    NewBitstreamMeaning(ns);
    RunConserves(Pictures(ns), lim, q);
    StartFlushes(Play(ns, lim), s, lim, q);
  }

  lemma StartFlushes(st: State, s: Slice, lim: Limits, q: Pic -> bool)
    requires Conserved(st, q) && Stable(q) && s.UnmarkAll()
    ensures var t, waiting := Start(st, s, lim), Count(st.pics, WaitingAnd(q));
            && st.emitted <= t.emitted && st.discarded <= t.discarded
            && (s.newBitstream ==> t.discarded == st.discarded)
            && (!s.newBitstream ==> t.pics == [])
            && (!s.newBitstream && s.noOutputOfPriorPics ==>
                  t.emitted == st.emitted && Count(t.discarded[|st.discarded|..], q) == waiting)
            && (!s.newBitstream && !s.noOutputOfPriorPics ==>
                  t.discarded == st.discarded && Count(t.emitted[|st.emitted|..], q) == waiting)
  {
    hide Start, Count, Stable;
    var t := Start(st, s, lim);
    StartConserves(st, s, lim, q);
    StartKeepsHistory(st, s, lim);
    assert t.emitted == st.emitted + t.emitted[|st.emitted|..];
    CountConcat(st.emitted, t.emitted[|st.emitted|..], q);
    assert t.discarded == st.discarded + t.discarded[|st.discarded|..];
    CountConcat(st.discarded, t.discarded[|st.discarded|..], q);
    if s.ClearDpb() {
      ClearLeavesNothing(st, s, lim);
      NothingCounted(WaitingAnd(q));
    }
    NothingCounted(q);
    assert t.emitted[|t.emitted|..] == [] && t.discarded[|t.discarded|..] == [];
  }

  lemma NothingCounted(q: Pic -> bool)
    ensures Count([], q) == 0
  {
  }

  lemma StartKeepsHistory(st: State, s: Slice, lim: Limits)
    ensures var t := Start(st, s, lim);
            && st.emitted <= t.emitted && st.discarded <= t.discarded && t.finished == st.finished
            && (!(s.ClearDpb() && s.noOutputOfPriorPics) ==> t.discarded == st.discarded)
            && (s.ClearDpb() && s.noOutputOfPriorPics ==> t.emitted == st.emitted)
  {
    hide Marked;
    StartBumps(st, s, lim);
    if s.ClearDpb() {
      BumpAllHistory(Cleaned(st, s), false);
    } else {
      BumpWhileHistory(Cleaned(st, s), lim, lim.bufferingMinus1 + 1);
    }
  }
}
