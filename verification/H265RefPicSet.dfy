/** From a slice header to the order counts of its reference picture set (H.265, section 8.3.2, equation 8-5). */
module H265RefPicSet {
  import opened Modulo
  import opened H265Marking

  /** A short-term entry relative to the current picture, and a long-term one by its low bits. */
  datatype StEntry = StEntry(deltaPoc: int, used: bool)

  datatype LtRef = LtRef(pocLsb: int, used: bool)

  /** The entries before (s0) and after (s1) the current picture, and the long-term entries: first those that the slice
      picks from the sequence's table, then its own. */
  datatype Header = Header(idr: bool, poc: int, pocLsb: int, maxLsb: int, s0: seq<StEntry>, s1: seq<StEntry>,
                           ltSps: seq<LtRef>, ltIdxSps: seq<nat>, ltSlice: seq<LtRef>,
                           msbPresent: seq<bool>, msbCycle: seq<int>)
  {
    function NumLt(): nat { |ltIdxSps| + |ltSlice| }

    predicate Valid() {
      && maxLsb > 0
      && |s0| + |s1| <= MAX_REF_PICS && NumLt() <= MAX_REF_PICS
      && (forall i :: 0 <= i < |ltIdxSps| ==> ltIdxSps[i] < |ltSps|)
      && |msbPresent| == |msbCycle| == NumLt()
    }

    function LtAt(i: nat): LtRef
      requires Valid() && i < NumLt()
    {
      if i < |ltIdxSps| then ltSps[ltIdxSps[i]] else ltSlice[i - |ltIdxSps|]
    }

    /** (7-52): cycles accumulate, and start over where the slice's own entries start. */
    function CycleAt(i: nat): int
      requires Valid() && i < NumLt()
    {
      if i == 0 || i == |ltIdxSps| then msbCycle[i] else msbCycle[i] + CycleAt(i - 1)
    }

    /** (8-5) for one long-term entry. */
    function EntryAt(i: nat): LtEntry
      requires Valid() && i < NumLt()
    {
      LtEntry(LtAt(i).pocLsb + if msbPresent[i] then poc - CycleAt(i) * maxLsb - pocLsb else 0, msbPresent[i])
    }

    /** The first n long-term entries that are, or are not, for use by the current picture. */
    function LtTo(n: nat, used: bool): (r: seq<LtEntry>)
      requires Valid() && n <= NumLt()
      ensures |r| <= n
    {
      if n == 0 then []
      else if LtAt(n - 1).used == used then LtTo(n - 1, used) + [EntryAt(n - 1)]
      else LtTo(n - 1, used)
    }
  }

  /** The order counts of the first n short-term entries that are, or are not, for use by the current picture. */
  function PocsTo(es: seq<StEntry>, n: nat, used: bool, poc: int): (r: seq<int>)
    requires n <= |es|
    ensures |r| <= n
  {
    if n == 0 then []
    else if es[n - 1].used == used then PocsTo(es, n - 1, used, poc) + [poc + es[n - 1].deltaPoc]
    else PocsTo(es, n - 1, used, poc)
  }

  function Pocs(es: seq<StEntry>, used: bool, poc: int): seq<int> { PocsTo(es, |es|, used, poc) }

  function Prepared(h: Header): Rps
    requires h.Valid()
  {
    if h.idr then Rps([], [], [], [], [])
    else Rps(h.LtTo(h.NumLt(), true), h.LtTo(h.NumLt(), false),
             Pocs(h.s0, true, h.poc), Pocs(h.s1, true, h.poc), Pocs(h.s0, false, h.poc) + Pocs(h.s1, false, h.poc))
  }

  /** Every short-term entry lands in exactly one set. */
  lemma {:induction false} PocsPartition(es: seq<StEntry>, n: nat, poc: int)
    requires n <= |es|
    ensures |PocsTo(es, n, true, poc)| + |PocsTo(es, n, false, poc)| == n
    ensures forall i :: 0 <= i < n ==> poc + es[i].deltaPoc in PocsTo(es, n, es[i].used, poc)
  {
    if n > 0 {
      PocsPartition(es, n - 1, poc);
      assert forall i :: 0 <= i < n - 1 ==> poc + es[i].deltaPoc in PocsTo(es, n - 1, es[i].used, poc);
    }
  }

  lemma {:induction false} PocsFrom(es: seq<StEntry>, n: nat, used: bool, poc: int, x: int)
    requires n <= |es| && x in PocsTo(es, n, used, poc)
    ensures exists i :: 0 <= i < n && es[i].used == used && x == poc + es[i].deltaPoc
  {
    if x in PocsTo(es, n - 1, used, poc) {
      PocsFrom(es, n - 1, used, poc, x);
    } else {
      assert es[n - 1].used == used && x == poc + es[n - 1].deltaPoc;
    }
  }

  lemma {:induction false} LtPartition(h: Header, n: nat)
    requires h.Valid() && n <= h.NumLt()
    ensures |h.LtTo(n, true)| + |h.LtTo(n, false)| == n
    ensures forall i :: 0 <= i < n ==> h.EntryAt(i) in h.LtTo(n, h.LtAt(i).used)
  {
    if n > 0 {
      LtPartition(h, n - 1);
    }
  }

  /** The set is as large as the header says, and its current part splits around the current picture. */
  lemma PreparedShape(h: Header)
    requires h.Valid() && !h.idr
    requires forall i :: 0 <= i < |h.s0| ==> h.s0[i].deltaPoc < 0
    requires forall i :: 0 <= i < |h.s1| ==> h.s1[i].deltaPoc > 0
    ensures Size(Prepared(h)) == |h.s0| + |h.s1| + h.NumLt()
    ensures forall x :: x in Prepared(h).stBefore ==> x < h.poc
    ensures forall x :: x in Prepared(h).stAfter ==> x > h.poc
  {
    PocsPartition(h.s0, |h.s0|, h.poc);
    PocsPartition(h.s1, |h.s1|, h.poc);
    LtPartition(h, h.NumLt());
    forall x | x in Prepared(h).stBefore
      ensures x < h.poc
    {
      PocsFrom(h.s0, |h.s0|, true, h.poc, x);
    }
    forall x | x in Prepared(h).stAfter
      ensures x > h.poc
    {
      PocsFrom(h.s1, |h.s1|, true, h.poc, x);
    }
  }

  /** A long-term order count is recovered if and only if the accumulated cycle is its distance in whole cycles. */
  lemma EntryIsExact(h: Header, i: nat, target: int)
    requires h.Valid() && i < h.NumLt() && h.msbPresent[i]
    requires h.pocLsb == h.poc % h.maxLsb && h.LtAt(i).pocLsb == target % h.maxLsb
    ensures h.EntryAt(i).poc == target <==> h.CycleAt(i) == h.poc / h.maxLsb - target / h.maxLsb
  {
    var m, d := h.maxLsb, h.poc / h.maxLsb - target / h.maxLsb;
    DivMod(h.poc, m);
    DivMod(target, m);
    assert h.EntryAt(i).poc - target == (d - h.CycleAt(i)) * m;
    NoRounds(d - h.CycleAt(i), m);
  }

  lemma NoRounds(k: int, m: nat)
    requires m > 0
    ensures k * m == 0 <==> k == 0
  {
  }

  /** What an encoder sends for long-term pictures with these order counts: differences, restarted at the slice's
      own. */
  function CyclesFor(targets: seq<int>, restart: nat, poc: int, max: nat): (r: seq<int>)
    requires max > 0
    ensures |r| == |targets|
    ensures forall i {:trigger r[i]} :: 0 <= i < |r| ==>
              r[i] == poc / max - targets[i] / max
                      - if i == 0 || i == restart then 0 else poc / max - targets[i - 1] / max
  {
    seq(|targets|, i requires 0 <= i < |targets| =>
          poc / max - targets[i] / max - if i == 0 || i == restart then 0 else poc / max - targets[i - 1] / max)
  }

  /** The decoder gets every order count back. */
  lemma {:induction false} LongTermRoundTrip(h: Header, targets: seq<int>, i: nat)
    requires h.Valid() && i < h.NumLt() == |targets| && h.pocLsb == h.poc % h.maxLsb
    requires h.msbCycle == CyclesFor(targets, |h.ltIdxSps|, h.poc, h.maxLsb)
    requires forall k :: 0 <= k < |targets| ==> h.LtAt(k).pocLsb == targets[k] % h.maxLsb
    ensures h.CycleAt(i) == h.poc / h.maxLsb - targets[i] / h.maxLsb
    ensures h.EntryAt(i).poc == if h.msbPresent[i] then targets[i] else targets[i] % h.maxLsb
  {
    var c := CyclesFor(targets, |h.ltIdxSps|, h.poc, h.maxLsb)[i];
    if i != 0 && i != |h.ltIdxSps| {
      LongTermRoundTrip(h, targets, i - 1);
    }
    if h.msbPresent[i] {
      EntryIsExact(h, i, targets[i]);
    }
  }

  /** Order counts and msb flags side by side. */
  function Zip(pocs: seq<int>, msb: seq<bool>): (r: seq<LtEntry>)
    requires |pocs| == |msb|
    ensures |r| == |pocs|
  {
    seq(|pocs|, x requires 0 <= x < |pocs| => LtEntry(pocs[x], msb[x]))
  }

  lemma ZipNone()
    ensures Zip([], []) == []
  {
  }

  lemma ZipAppend(pocs: seq<int>, msb: seq<bool>, poc: int, m: bool)
    requires |pocs| == |msb|
    ensures Zip(pocs + [poc], msb + [m]) == Zip(pocs, msb) + [LtEntry(poc, m)]
  {
  }

  /** The decoder's arrays of order counts, each with its count. */
  class PocSets {
    const stCurrBefore: array<int>
    const stCurrAfter: array<int>
    const stFoll: array<int>
    const ltCurr: array<int>
    const ltFoll: array<int>
    var numStCurrBefore: nat
    var numStCurrAfter: nat
    var numStFoll: nat
    var numLtCurr: nat
    var numLtFoll: nat
    var numPicTotalCurr: nat

    ghost predicate Valid()
      reads this
    {
      && stCurrBefore.Length == stCurrAfter.Length == stFoll.Length == ltCurr.Length == ltFoll.Length == MAX_REF_PICS
      && stCurrBefore != stCurrAfter && stCurrBefore != stFoll && stCurrAfter != stFoll && ltCurr != ltFoll
      && stCurrBefore != ltCurr && stCurrBefore != ltFoll && stCurrAfter != ltCurr && stCurrAfter != ltFoll
      && stFoll != ltCurr && stFoll != ltFoll
      && numStCurrBefore <= MAX_REF_PICS && numStCurrAfter <= MAX_REF_PICS && numStFoll <= MAX_REF_PICS
      && numLtCurr <= MAX_REF_PICS && numLtFoll <= MAX_REF_PICS
    }

    constructor ()
      ensures Valid() && fresh(stCurrBefore) && fresh(stCurrAfter) && fresh(stFoll) && fresh(ltCurr) && fresh(ltFoll)
    {
      stCurrBefore, stCurrAfter, stFoll := new int[MAX_REF_PICS], new int[MAX_REF_PICS], new int[MAX_REF_PICS];
      ltCurr, ltFoll := new int[MAX_REF_PICS], new int[MAX_REF_PICS];
      numStCurrBefore, numStCurrAfter, numStFoll, numLtCurr, numLtFoll, numPicTotalCurr := 0, 0, 0, 0, 0, 0;
    }

    /** One of the two short-term loops: entries for the current picture go to curr, the others behind the first k0
        elements of foll. */
    method SplitShortTerm(es: seq<StEntry>, poc: int, curr: array<int>, foll: array<int>, k0: nat)
      returns (j: nat, k: nat)
      requires curr != foll && |es| <= curr.Length && k0 + |es| <= foll.Length
      modifies curr, foll
      ensures j <= |es| && curr[..j] == Pocs(es, true, poc)
      ensures k <= k0 + |es| && foll[..k] == old(foll[..k0]) + Pocs(es, false, poc)
    {
      j, k := 0, k0;
      for i := 0 to |es|
        invariant j <= i && k <= k0 + i
        invariant curr[..j] == PocsTo(es, i, true, poc)
        invariant foll[..k] == old(foll[..k0]) + PocsTo(es, i, false, poc)
      {
        ghost var c, f := curr[..j], foll[..k];
        if es[i].used {
          curr[j] := poc + es[i].deltaPoc;
          j := j + 1;
          assert curr[..j] == c + [poc + es[i].deltaPoc] && foll[..k] == f;
        } else {
          foll[k] := poc + es[i].deltaPoc;
          k := k + 1;
          assert foll[..k] == f + [poc + es[i].deltaPoc] && curr[..j] == c;
        }
      }
    }

    /** The first long-term loop: the cycles are accumulated. */
    method AccumulateCycles(h: Header) returns (r: seq<int>)
      requires h.Valid()
      ensures |r| == h.NumLt() && forall x :: 0 <= x < h.NumLt() ==> r[x] == h.CycleAt(x)
    {
      var cycles := new int[MAX_REF_PICS];
      for i := 0 to h.NumLt()
        invariant forall x :: 0 <= x < i ==> cycles[x] == h.CycleAt(x)
      {
        cycles[i] := if i == 0 || i == |h.ltIdxSps| then h.msbCycle[i] else h.msbCycle[i] + cycles[i - 1];
      }
      r := cycles[..h.NumLt()];
    }

    /** The second: each entry goes to its set, its msb flag to the list beside it. */
    method SplitLongTerm(h: Header) returns (currMsb: seq<bool>, follMsb: seq<bool>)
      requires Valid() && h.Valid()
      modifies ltCurr, ltFoll, `numLtCurr, `numLtFoll
      ensures Valid() && |currMsb| == numLtCurr && |follMsb| == numLtFoll
      ensures Zip(ltCurr[..numLtCurr], currMsb) == h.LtTo(h.NumLt(), true)
      ensures Zip(ltFoll[..numLtFoll], follMsb) == h.LtTo(h.NumLt(), false)
    {
      hide Zip;
      var cycles := AccumulateCycles(h);
      currMsb, follMsb := [], [];
      ZipNone();
      for i := 0 to h.NumLt()
        invariant |currMsb| <= i && |follMsb| <= i
        invariant Zip(ltCurr[..|currMsb|], currMsb) == h.LtTo(i, true)
        invariant Zip(ltFoll[..|follMsb|], follMsb) == h.LtTo(i, false)
      {
        ghost var c, f := ltCurr[..|currMsb|], ltFoll[..|follMsb|];
        var poc, msb := h.LtAt(i).pocLsb, h.msbPresent[i];
        if msb {
          poc := poc + (h.poc - cycles[i] * h.maxLsb - h.pocLsb);
        }
        if h.LtAt(i).used {
          ltCurr[|currMsb|] := poc;
          ZipAppend(c, currMsb, poc, msb);
          currMsb := currMsb + [msb];
          assert ltCurr[..|currMsb|] == c + [poc] && ltFoll[..|follMsb|] == f;
        } else {
          ltFoll[|follMsb|] := poc;
          ZipAppend(f, follMsb, poc, msb);
          follMsb := follMsb + [msb];
          assert ltFoll[..|follMsb|] == f + [poc] && ltCurr[..|currMsb|] == c;
        }
      }
      numLtCurr, numLtFoll := |currMsb|, |follMsb|;
    }

    /** The short-term half. */
    method SplitBothSides(h: Header)
      requires Valid() && h.Valid()
      modifies stCurrBefore, stCurrAfter, stFoll, `numStCurrBefore, `numStCurrAfter, `numStFoll
      ensures Valid()
      ensures stCurrBefore[..numStCurrBefore] == Pocs(h.s0, true, h.poc)
      ensures stCurrAfter[..numStCurrAfter] == Pocs(h.s1, true, h.poc)
      ensures stFoll[..numStFoll] == Pocs(h.s0, false, h.poc) + Pocs(h.s1, false, h.poc)
    {
      hide Pocs;
      var j, k := SplitShortTerm(h.s0, h.poc, stCurrBefore, stFoll, 0);
      numStCurrBefore := j;
      j, k := SplitShortTerm(h.s1, h.poc, stCurrAfter, stFoll, k);
      numStCurrAfter, numStFoll := j, k;
    }

    /** `prepare_rps`, up to the lookup of the pictures. An IDR slice resets all counts but the total. */
    method PrepareRps(h: Header) returns (r: Rps)
      requires Valid() && h.Valid()
      modifies this, stCurrBefore, stCurrAfter, stFoll, ltCurr, ltFoll
      ensures Valid() && r == Prepared(h)
      ensures numPicTotalCurr == if h.idr then old(numPicTotalCurr) else |r.stBefore| + |r.stAfter| + |r.ltCurr|
    {
      if h.idr {
        numStCurrBefore, numStCurrAfter, numStFoll, numLtCurr, numLtFoll := 0, 0, 0, 0, 0;
        return Rps([], [], [], [], []);
      }
      SplitBothSides(h);
      var currMsb, follMsb := SplitLongTerm(h);
      numPicTotalCurr := numStCurrBefore + numStCurrAfter + numLtCurr;
      r := Rps(Zip(ltCurr[..numLtCurr], currMsb), Zip(ltFoll[..numLtFoll], follMsb),
               stCurrBefore[..numStCurrBefore], stCurrAfter[..numStCurrAfter], stFoll[..numStFoll]);
    }
  }
}
