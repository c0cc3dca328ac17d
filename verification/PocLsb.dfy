/** Picture order counts sent as their low bits: both codecs recover the high part from an earlier picture,
    the anchor, by the same three-way rule. */
module PocLsb {

  /** (8-1) of H.265, (8-3) of H.264. */
  function Msb(prevMsb: int, prevLsb: int, lsb: int, max: int): int {
    if lsb < prevLsb && prevLsb - lsb >= max / 2 then prevMsb + max
    else if lsb > prevLsb && lsb - prevLsb > max / 2 then prevMsb - max
    else prevMsb
  }

  /** MaxPicOrderCntLsb is a power of two, at least 16; being even is all that matters. */
  predicate IsRange(max: int) { max > 0 && max % 2 == 0 }

  /** poc can be recovered from its low bits, given the anchor. */
  predicate Near(poc: int, anchor: int, max: int) { -(max / 2) < poc - anchor <= max / 2 }

  lemma MultiplesApart(k: int, max: int)
    requires max > 0
    ensures k >= 2 ==> k * max >= 2 * max
    ensures k <= -2 ==> k * max <= -2 * max
  {
  }

  /** Exactly the order counts near the anchor are recovered. */
  lemma RecoverIff(poc: int, anchor: int, max: int)
    requires IsRange(max)
    ensures Msb(anchor - anchor % max, anchor % max, poc % max, max) + poc % max == poc <==> Near(poc, anchor, max)
  {
    var k := poc / max - anchor / max;
    var a, l := anchor % max, poc % max;
    assert poc - anchor == k * max + l - a by {
      assert poc == poc / max * max + l && anchor == anchor / max * max + a;
      assert k * max == poc / max * max - anchor / max * max;
    }
    if k >= 2 || k <= -2 {
      MultiplesApart(k, max);
    } else {
      assert k == 0 || k == 1 || k == -1;
    }
  }
}
