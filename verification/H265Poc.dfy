/** H.265 picture order counts (section 8.3.1): the decoder state, one picture, and whole streams. */
module H265Poc {
  import opened PocLsb

  const RADL_N := 6
  const RASL_N := 8
  const RASL_R := 9
  const BLA_W_LP := 16
  const IDR_W_RADL := 19
  const IDR_N_LP := 20
  const RSV_IRAP_VCL23 := 23

  predicate IsIrap(t: nat) { BLA_W_LP <= t <= RSV_IRAP_VCL23 }

  predicate IsIdr(t: nat) { t == IDR_W_RADL || t == IDR_N_LP }

  predicate IsLeading(t: nat) { RADL_N <= t <= RASL_R }

  /** Not one of the sub-layer non-reference types. */
  predicate IsRef(t: nat) { t !in {0, 2, 4, RADL_N, RASL_N, 10, 12, 14} }

  /** What the decoder reads of one picture. */
  datatype Nal = Nal(nalType: nat, temporalIdPlus1: nat, noRaslOutputFlag: bool, lsb: int)

  predicate IsAnchor(t: nat, temporalIdPlus1: nat) {
    temporalIdPlus1 == 1 && !IsLeading(t) && IsRef(t)
  }

  class PocState {
    var pocLsb: int
    var pocMsb: int
    var prevPocLsb: int
    var prevPocMsb: int
    var prevTid0PicPocLsb: int
    var prevTid0PicPocMsb: int

    constructor ()
      ensures prevTid0PicPocLsb == prevTid0PicPocMsb == 0
    {
      pocLsb, pocMsb, prevPocLsb, prevPocMsb, prevTid0PicPocLsb, prevTid0PicPocMsb := 0, 0, 0, 0, 0, 0;
    }

    method CalculatePoc(nal: Nal, max: int) returns (poc: int)
      requires IsIdr(nal.nalType) ==> nal.noRaslOutputFlag && nal.lsb == 0
      modifies this
      ensures poc == Decode(old(prevTid0PicPocMsb), old(prevTid0PicPocLsb), nal, max)
      ensures if IsIdr(nal.nalType) then prevTid0PicPocMsb == 0 && prevTid0PicPocLsb == 0
              else if IsAnchor(nal.nalType, nal.temporalIdPlus1)
              then prevTid0PicPocMsb == poc - nal.lsb && prevTid0PicPocLsb == nal.lsb
              else prevTid0PicPocMsb == old(prevTid0PicPocMsb) && prevTid0PicPocLsb == old(prevTid0PicPocLsb)
    {
      prevPocLsb, prevPocMsb := pocLsb, pocMsb;
      var restarts := IsIrap(nal.nalType) && nal.noRaslOutputFlag;
      if !restarts {
        prevPocLsb, prevPocMsb := prevTid0PicPocLsb, prevTid0PicPocMsb;
      }
      if restarts {
        pocMsb := 0;
      } else {
        if nal.lsb < prevPocLsb && prevPocLsb - nal.lsb >= max / 2 {
          pocMsb := prevPocMsb + max;
        } else if nal.lsb > prevPocLsb && nal.lsb - prevPocLsb > max / 2 {
          pocMsb := prevPocMsb - max;
        } else {
          pocMsb := prevPocMsb;
        }
      }
      poc := pocMsb + nal.lsb;
      pocLsb := nal.lsb;
      if IsIdr(nal.nalType) {
        poc, pocLsb, pocMsb, prevPocLsb, prevPocMsb := 0, 0, 0, 0, 0;
        prevTid0PicPocLsb, prevTid0PicPocMsb := 0, 0;
      }
      if IsAnchor(nal.nalType, nal.temporalIdPlus1) {
        prevTid0PicPocLsb, prevTid0PicPocMsb := nal.lsb, pocMsb;
      }
    }
  }

  /** The order count of one picture, from the anchor's msb and lsb. */
  function Decode(anchorMsb: int, anchorLsb: int, nal: Nal, max: int): int {
    if IsIrap(nal.nalType) && nal.noRaslOutputFlag then nal.lsb
    else Msb(anchorMsb, anchorLsb, nal.lsb, max) + nal.lsb
  }

  /** A picture as the encoder knows it, with its full order count. */
  datatype Coded = Coded(nalType: nat, temporalIdPlus1: nat, noRaslOutputFlag: bool, poc: int)

  /** What is sent of it: the low bits, none at all for an IDR picture. */
  function Send(c: Coded, max: int): Nal
    requires max > 0
  {
    Nal(c.nalType, c.temporalIdPlus1, c.noRaslOutputFlag, if IsIdr(c.nalType) then 0 else c.poc % max)
  }

  /** Order count of the last anchor among the first n pictures. */
  function Anchor(cs: seq<Coded>, n: nat): int
    requires n <= |cs|
  {
    if n == 0 then 0
    else if IsIdr(cs[n - 1].nalType) then 0
    else if IsAnchor(cs[n - 1].nalType, cs[n - 1].temporalIdPlus1) then cs[n - 1].poc
    else Anchor(cs, n - 1)
  }

  /** Leading pictures (types 6 to 9), and the sub-layer non-reference types, which are even and below 16. */
  predicate CannotAnchor(c: Coded) {
    c.temporalIdPlus1 != 1 || 6 <= c.nalType <= 9 || (c.nalType % 2 == 0 && c.nalType < 16)
  }

  /** The anchor is the last picture of the lowest temporal sub-layer that is neither leading nor a sub-layer
      non-reference picture; an IDR picture, whose count is zero, is one in any case. */
  lemma {:induction false} AnchorIsLast(cs: seq<Coded>, n: nat, k: nat)
    requires k < n <= |cs| && (IsIdr(cs[k].nalType) || !CannotAnchor(cs[k]))
    requires forall j :: k < j < n ==> !IsIdr(cs[j].nalType) && CannotAnchor(cs[j])
    ensures Anchor(cs, n) == if IsIdr(cs[k].nalType) then 0 else cs[k].poc
  {
    if k < n - 1 {
      AnchorIsLast(cs, n - 1, k);
    }
  }

  /** The standard's bound on one picture. */
  predicate Recoverable(cs: seq<Coded>, n: nat, max: int)
    requires n < |cs|
  {
    if IsIdr(cs[n].nalType) then cs[n].poc == 0
    else if IsIrap(cs[n].nalType) && cs[n].noRaslOutputFlag then 0 <= cs[n].poc < max
    else Near(cs[n].poc, Anchor(cs, n), max)
  }

  ghost predicate RecoverableTo(cs: seq<Coded>, n: nat, max: int)
    requires n <= |cs|
  {
    forall k :: 0 <= k < n ==> Recoverable(cs, k, max)
  }

  lemma ModBounds(x: int, max: int)
    requires max > 0
    ensures x % max == x <==> 0 <= x < max
  {
  }

  /** The state is what an encoder with the true counts expects. */
  ghost predicate Tracks(state: PocState, anchor: int, max: int)
    requires max > 0
    reads state
  {
    state.prevTid0PicPocLsb == anchor % max && state.prevTid0PicPocMsb == anchor - anchor % max
  }

  /** One picture: from a state that tracks the anchor the count is right exactly when the picture is recoverable, and
      then the state tracks the next anchor. */
  method DecodeOne(state: PocState, ghost cs: seq<Coded>, ghost n: nat, c: Coded, max: int) returns (poc: int)
    requires IsRange(max) && n < |cs| && c == cs[n] && (IsIdr(c.nalType) ==> c.noRaslOutputFlag)
    modifies state
    ensures old(Tracks(state, Anchor(cs, n), max)) ==> (poc == c.poc <==> Recoverable(cs, n, max))
    ensures old(Tracks(state, Anchor(cs, n), max)) && Recoverable(cs, n, max) ==> Tracks(state, Anchor(cs, n + 1), max)
  {
    hide Msb;
    RecoverIff(c.poc, Anchor(cs, n), max);
    ModBounds(c.poc, max);
    ModBounds(0, max);
    poc := state.CalculatePoc(Send(c, max), max);
  }

  /** Decoding a whole stream of low bits. The k-th result is right for every k exactly when every picture keeps
      within half a period of its anchor. */
  method DecodeStream(cs: seq<Coded>, max: int) returns (pocs: seq<int>)
    requires IsRange(max)
    requires forall k :: 0 <= k < |cs| && IsIdr(cs[k].nalType) ==> cs[k].noRaslOutputFlag
    ensures |pocs| == |cs|
    ensures (forall k :: 0 <= k < |cs| ==> pocs[k] == cs[k].poc) <==> RecoverableTo(cs, |cs|, max)
  {
    var state := new PocState();
    pocs := [];
    ModBounds(0, max);
    for i := 0 to |cs|
      invariant |pocs| == i && fresh(state)
      invariant (forall k :: 0 <= k < i ==> pocs[k] == cs[k].poc) <==> RecoverableTo(cs, i, max)
      invariant RecoverableTo(cs, i, max) ==> Tracks(state, Anchor(cs, i), max)
    {
      hide Tracks, Recoverable, Anchor;
      ghost var before := pocs;
      var poc := DecodeOne(state, cs, i, cs[i], max);
      pocs := pocs + [poc];
      assert forall k :: 0 <= k < i ==> pocs[k] == before[k];
      assert RecoverableTo(cs, i + 1, max) <==> RecoverableTo(cs, i, max) && Recoverable(cs, i, max);
    }
  }
}
