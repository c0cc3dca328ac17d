/** The H.265 decoding loop on values: what one slice does to the buffer before decoding (C.5.2.2) and
    after it (C.5.2.3), and runs of any length. Class `H265Decoder.Decoder` is proved to follow it. */
module H265Machine {
  import opened Seqs
  import opened H265DpbSpec
  import opened H265Marking

  /** The limits of the active sequence parameter set; `bufferingMinus1` is sps_max_dec_pic_buffering_minus1. */
  datatype Limits = Limits(maxNumPics: int, reorder: nat, latency: nat, bufferingMinus1: nat)

  /** One coded picture as its first slice describes it: `irap` says it is an intra random access point, `noRaslOutput`
      is NoRaslOutputFlag, `newBitstream` whether the bitstream starts here. Module `H265Nal` derives these flags. */
  datatype Slice = Slice(id: nat, poc: int, pocLsb: int, outputFlag: bool, rps: Rps,
                         irap: bool, noRaslOutput: bool, newBitstream: bool, noOutputOfPriorPics: bool)
  {
    /** Every stored picture stops being a reference. */
    predicate UnmarkAll() { irap && noRaslOutput }

    /** The buffer is to be emptied. */
    predicate ClearDpb() { irap && noRaslOutput && !newBitstream }
  }

  /** `emitted`, `finished` and `discarded` are histories: the pictures bumped out, the pictures finished in
      decoding order, and those thrown away unseen. */
  datatype State = State(pics: seq<Pic>, emitted: seq<Pic>, finished: seq<Pic>, discarded: seq<Pic>)

  const Initial := State([], [], [], [])

  function NewPic(s: Slice): Pic {
    Pic(s.id, s.poc, s.pocLsb, s.outputFlag, false, false, false, 0)
  }

  /** One picture is bumped out. */
  function BumpOnce(st: State, drain: bool): (r: State)
    requires Lowest(st.pics) >= 0
    ensures Count(r.pics, Waiting) == Count(st.pics, Waiting) - 1
  {
    var i := Lowest(st.pics);
    OutputCount(st.pics, i, drain, Waiting);
    st.(pics := Output(st.pics, i, drain), emitted := st.emitted + [st.pics[i].(needed := false)])
  }

  /** Bump while the decision asks for it and there is something to output. */
  function BumpWhile(st: State, lim: Limits, buffering: nat): State
    decreases Count(st.pics, Waiting)
  {
    if NeedsBump(st.pics, lim.maxNumPics, lim.reorder, lim.latency, buffering) && Lowest(st.pics) >= 0
    then BumpWhile(BumpOnce(st, false), lim, buffering)
    else st
  }

  lemma BumpWhileUnfolds(st: State, lim: Limits, buffering: nat)
    ensures BumpWhile(st, lim, buffering)
         == if NeedsBump(st.pics, lim.maxNumPics, lim.reorder, lim.latency, buffering) && Lowest(st.pics) >= 0
            then BumpWhile(BumpOnce(st, false), lim, buffering) else st
  {
  }

  /** Bump until nothing waits. */
  function BumpAll(st: State, drain: bool): State
    decreases Count(st.pics, Waiting)
  {
    if Lowest(st.pics) >= 0 then BumpAll(BumpOnce(st, drain), drain) else st
  }

  lemma BumpAllUnfolds(st: State, drain: bool)
    ensures BumpAll(st, drain) == if Lowest(st.pics) >= 0 then BumpAll(BumpOnce(st, drain), drain) else st
  {
  }

  /** Everything stored leaves unseen, in the order in which it would have been output. */
  function DiscardAll(st: State): State {
    st.(pics := [], discarded := st.discarded + BumpAll(st.(emitted := []), true).emitted)
  }

  /** The buffer in which the reference picture set of a slice is looked up. */
  function Unmarked(pics: seq<Pic>, s: Slice): (m: seq<Pic>)
    ensures |m| == |pics|
  {
    if s.UnmarkAll() then Map(pics, Unref) else pics
  }

  function Marked(pics: seq<Pic>, s: Slice): (m: seq<Pic>)
    ensures |m| == |pics|
  {
    Mark(Unmarked(pics, s), s.rps)
  }

  /** C.5.2.2, on a buffer whose references are already marked: removal and output before decoding. */
  function DpbInit(st: State, s: Slice, lim: Limits): State {
    if !s.ClearDpb() then BumpWhile(st.(pics := DeleteUnused(st.pics)), lim, lim.bufferingMinus1 + 1)
    else if !s.noOutputOfPriorPics then BumpAll(st.(pics := DeleteUnused(st.pics)), false)
    else DiscardAll(st)
  }

  /** Before decoding: marking, then removal and output. */
  function Start(st: State, s: Slice, lim: Limits): State {
    DpbInit(st.(pics := Marked(st.pics, s)), s, lim)
  }

  /** The buffer once the slice's reference picture set is in force and dead pictures are gone. */
  function Cleaned(st: State, s: Slice): State {
    st.(pics := DeleteUnused(Marked(st.pics, s)))
  }

  /** The buffer with the decoded picture, before the additional bumping. */
  function Insert(st: State, p: Pic): State {
    st.(pics := Add(DeleteUnused(st.pics), p), finished := st.finished + [p])
  }

  /** After decoding. */
  function Finish(st: State, s: Slice, lim: Limits): State {
    BumpWhile(Insert(st, NewPic(s)), lim, 0)
  }

  function Step(st: State, s: Slice, lim: Limits): State {
    Finish(Start(st, s, lim), s, lim)
  }

  function Run(st: State, ss: seq<Slice>, lim: Limits): State {
    if ss == [] then st else Step(Run(st, ss[..|ss| - 1], lim), ss[|ss| - 1], lim)
  }

  function Drain(st: State): State {
    BumpAll(st, true).(pics := [])
  }
}
