/** What each operation of the H.265 decoded picture buffer does to its value, a sequence of `Pic`. */
module H265DpbSpec {
  import opened Seqs

  /** The part of a picture that the buffer looks at. `id` is the system frame number. */
  datatype Pic = Pic(id: nat, poc: int, pocLsb: int, outputFlag: bool,
                     ref: bool, longTerm: bool, needed: bool, latency: nat)

  predicate Waiting(p: Pic) { p.needed }

  predicate Referenced(p: Pic) { p.ref }

  predicate InUse(p: Pic) { p.needed || p.ref }

  function IdOf(p: Pic): nat { p.id }

  function LateBy(limit: nat): Pic -> bool { (p: Pic) => p.needed && p.latency >= limit }

  function RefWithPoc(poc: int): Pic -> bool { (p: Pic) => p.ref && p.poc == poc }

  function RefWithLsb(lsb: int): Pic -> bool { (p: Pic) => p.ref && p.pocLsb == lsb }

  function ShortRefWithPoc(poc: int): Pic -> bool { (p: Pic) => p.ref && !p.longTerm && p.poc == poc }

  function Unref(p: Pic): Pic { p.(ref := false) }

  /** C.5.2.3: an output picture that arrives makes every waiting picture one older. */
  function Aged(p: Pic): Pic { if p.needed then p.(latency := p.latency + 1) else p }

  /** C.3.4: a stored picture starts as a short-term reference. */
  function Stored(p: Pic): Pic { p.(needed := p.outputFlag, ref := true, longTerm := false) }

  function Add(pics: seq<Pic>, p: Pic): seq<Pic> {
    (if p.outputFlag then Map(pics, Aged) else pics) + [Stored(p)]
  }

  function DeleteUnused(pics: seq<Pic>): seq<Pic> { Filter(pics, InUse) }

  /** Index of the waiting picture that is first in output order among the first n pictures, or -1. */
  function LowestTo(pics: seq<Pic>, n: nat): (i: int)
    requires n <= |pics|
    ensures -1 <= i < n
    ensures i < 0 ==> forall k :: 0 <= k < n ==> !pics[k].needed
    ensures i >= 0 ==> pics[i].needed && forall k :: 0 <= k < n && pics[k].needed ==> pics[i].poc <= pics[k].poc
    ensures i >= 0 ==> forall k :: 0 <= k < i && pics[k].needed ==> pics[i].poc < pics[k].poc
  {
    if n == 0 then -1
    else
      var r := LowestTo(pics, n - 1);
      if pics[n - 1].needed && (r < 0 || pics[n - 1].poc < pics[r].poc) then n - 1 else r
  }

  function Lowest(pics: seq<Pic>): (i: int)
    ensures -1 <= i < |pics|
    ensures i < 0 ==> forall k :: 0 <= k < |pics| ==> !pics[k].needed
    ensures i >= 0 ==> pics[i].needed && forall k :: 0 <= k < |pics| && pics[k].needed ==> pics[i].poc <= pics[k].poc
    ensures i >= 0 ==> forall k :: 0 <= k < i && pics[k].needed ==> pics[i].poc < pics[k].poc
  {
    LowestTo(pics, |pics|)
  }

  /** C.5.2.4: the buffer after the waiting picture at i has been output. */
  function Output(pics: seq<Pic>, i: nat, drain: bool): seq<Pic>
    requires i < |pics|
  {
    var marked := pics[i := pics[i].(needed := false)];
    if !pics[i].ref || drain then RemoveFast(marked, i) else marked
  }

  /** The four guards of the bumping decision, in the order of C.5.2.2 and C.5.2.3. A zero latency
      or buffering limit switches the guard off. */
  predicate NeedsBump(pics: seq<Pic>, maxNumPics: int, reorder: nat, latency: nat, buffering: nat) {
    || |pics| > maxNumPics
    || Count(pics, Waiting) > reorder
    || (Count(pics, Waiting) != 0 && latency != 0 && Find(pics, LateBy(latency)) >= 0)
    || (buffering != 0 && |pics| >= buffering)
  }

  lemma OutputCount(pics: seq<Pic>, i: nat, drain: bool, p: Pic -> bool)
    requires i < |pics|
    ensures Count(Output(pics, i, drain), p)
         == Count(pics, p) - (if p(pics[i]) then 1 else 0)
            + (if pics[i].ref && !drain && p(pics[i].(needed := false)) then 1 else 0)
  {
    CountUpdate(pics, i, pics[i].(needed := false), p);
    CountRemove(pics[i := pics[i].(needed := false)], i, p);
  }

  lemma OutputCountOfLowest(pics: seq<Pic>)
    ensures Lowest(pics) >= 0 ==> Count(Output(pics, Lowest(pics), true), Waiting) < Count(pics, Waiting)
  {
    if Lowest(pics) >= 0 {
      OutputCount(pics, Lowest(pics), true, Waiting);
    }
  }
}
