/** Reference list modification (section 8.2.4.3 of H.264): the in-place insert-and-compact loop,
    and what it means. */
module H264Modify {
  import opened Seqs
  import H264DpbSpec

  /** A reference picture as the lists see it; Null is an unfilled place. */
  datatype Ref = Null | Ref(id: nat, picNum: int, longTermPicNum: int, poc: int, longTerm: bool, topField: bool)

  /** One command: modification_of_pic_nums_idc and its operand, abs_diff_pic_num_minus1 or long_term_pic_num. */
  datatype Cmd = Cmd(idc: nat, value: nat)

  /** What the commands are read against: the reference pictures of the buffer and the current picture's numbers. */
  datatype Context = Context(refs: seq<Ref>, picNum: int, maxPicNum: int, maxLongTermFrameIdx: int)

  function ShortWith(picNum: int): Ref -> bool { (r: Ref) => r.Ref? && !r.longTerm && r.picNum == picNum }

  function LongWith(longTermPicNum: int): Ref -> bool {
    (r: Ref) => r.Ref? && r.longTerm && r.longTermPicNum == longTermPicNum
  }

  function NotIs(p: Ref): Ref -> bool { (r: Ref) => r != p }

  function NotIn(ps: seq<Ref>): Ref -> bool { (r: Ref) => r !in ps }

  // ---- Reading the commands -------------------------------------------------------------------------

  /** (8-34) and (8-35): the next prediction. */
  function NoWrap(pred: int, c: Cmd, max: int): int {
    if c.idc == 0 then
      var n := pred - (c.value + 1); if n < 0 then n + max else n
    else
      var n := pred + (c.value + 1); if n >= max then n - max else n
  }

  /** (8-36): the picture number meant. */
  function Unwrap(noWrap: int, picNum: int, max: int): int {
    if noWrap > picNum then noWrap - max else noWrap
  }

  /** How far the command list has been read: the pictures found so far, the prediction, whether the end was seen. */
  datatype Progress = Progress(picked: seq<Ref>, pred: int, done: bool)

  function Step(s: Progress, c: Cmd, ctx: Context): Progress {
    if s.done then s
    else if c.idc <= 1 then
      var n := NoWrap(s.pred, c, ctx.maxPicNum);
      var i := Find(ctx.refs, ShortWith(Unwrap(n, ctx.picNum, ctx.maxPicNum)));
      Progress(if i < 0 then s.picked else s.picked + [ctx.refs[i]], n, false)
    else if c.idc == 2 then
      var i := Find(ctx.refs, LongWith(c.value));
      s.(picked := if i < 0 then s.picked else s.picked + [ctx.refs[i]])
    else s.(done := c.idc == 3)
  }

  function ReadTo(cmds: seq<Cmd>, n: nat, ctx: Context): Progress
    requires n <= |cmds|
  {
    if n == 0 then Progress([], ctx.picNum, false) else Step(ReadTo(cmds, n - 1, ctx), cmds[n - 1], ctx)
  }

  /** The pictures the commands name, in command order. */
  function Commanded(cmds: seq<Cmd>, ctx: Context): seq<Ref> { ReadTo(cmds, |cmds|, ctx).picked }

  // ---- Meaning of the list -----------------------------------------------------------------------

  /** Named pictures first, in the order named; then the rest of the initial list, in its order. */
  function NamedFirst(init: seq<Ref>, picked: seq<Ref>): seq<Ref> {
    picked + Filter(init, NotIn(picked))
  }

  /** Numbers identify references, short-term numbers stay below MaxPicNum, long-term numbers below the value
      that stands for "not long-term". */
  ghost predicate Numbered(ctx: Context) {
    && (forall r :: r in ctx.refs ==> r.Ref?)
    && (forall r :: r in ctx.refs && !r.longTerm ==> r.picNum < ctx.maxPicNum)
    && (forall r :: r in ctx.refs && r.longTerm ==> r.longTermPicNum < 2 * (ctx.maxLongTermFrameIdx + 1))
    && (forall a, b :: a in ctx.refs && b in ctx.refs && !a.longTerm && !b.longTerm && a.picNum == b.picNum ==> a == b)
    && (forall a, b | a in ctx.refs && b in ctx.refs && a.longTerm && b.longTerm ::
          a.longTermPicNum == b.longTermPicNum ==> a == b)
  }

  lemma NotInMore(picked: seq<Ref>, p: Ref, x: Ref)
    ensures NotIn(picked + [p])(x) <==> NotIn(picked)(x) && NotIs(p)(x)
  {
  }

  lemma FilterEmpty(p: Ref -> bool)
    ensures Filter([], p) == []
  {
  }

  /** Leaving one more picture out of a filtered list. */
  lemma {:induction false} FilterTwice(init: seq<Ref>, n: nat, picked: seq<Ref>, p: Ref)
    requires n <= |init|
    ensures Filter(FilterTo(init, n, NotIn(picked)), NotIs(p)) == FilterTo(init, n, NotIn(picked + [p]))
  {
    hide Filter;
    if n == 0 {
      FilterEmpty(NotIs(p));
    } else {
      var x, before := init[n - 1], FilterTo(init, n - 1, NotIn(picked));
      FilterTwice(init, n - 1, picked, p);
      NotInMore(picked, p, x);
      FilterAppend(before, x, NotIs(p));
    }
  }

  /** No picture occurs twice; unfilled places may. */
  predicate Once(s: seq<Ref>) {
    forall i, j :: 0 <= i < j < |s| && s[i].Ref? ==> s[i] != s[j]
  }

  predicate AllRefs(s: seq<Ref>) {
    forall i :: 0 <= i < |s| ==> s[i].Ref?
  }

  /** A list in which no picture occurs twice loses at most one place to one picture. */
  lemma {:induction false} FilterOne(s: seq<Ref>, n: nat, p: Ref)
    requires n <= |s| && Once(s) && p.Ref?
    ensures |FilterTo(s, n, NotIs(p))| >= n - 1
    ensures p !in s[..n] ==> |FilterTo(s, n, NotIs(p))| == n
  {
    if n > 0 {
      FilterOne(s, n - 1, p);
      assert s[..n] == s[..n - 1] + [s[n - 1]];
      assert s[n - 1].Ref? ==> s[n - 1] !in s[..n - 1];
    }
  }

  /** Filtering a prefix yields a prefix of the filtered whole, long enough but for one place. */
  lemma FilterPrefixOf(s: seq<Ref>, k: nat, p: Ref)
    requires 0 < k <= |s| && Once(s) && p.Ref?
    ensures |Filter(s[..k], NotIs(p))| >= k - 1 && |Filter(s, NotIs(p))| >= k - 1
    ensures Filter(s[..k], NotIs(p))[..k - 1] == Filter(s, NotIs(p))[..k - 1]
  {
    var a, b := s[..k], s[k..];
    assert s == a + b;
    FilterConcat(a, b, NotIs(p));
    FilterOne(a, k, p);
  }

  lemma {:induction false} FilterOnce(s: seq<Ref>, n: nat, p: Ref -> bool)
    requires n <= |s| && Once(s)
    ensures Once(FilterTo(s, n, p))
    ensures forall r :: r in FilterTo(s, n, p) ==> r in s[..n]
  {
    FilterMembers(s, n, p);
    if n > 0 {
      FilterOnce(s, n - 1, p);
      assert s[n - 1].Ref? ==> s[n - 1] !in s[..n - 1];
    }
  }

  /** Naming pictures never makes the list shorter than it was. */
  lemma {:induction false} NamedFirstLength(init: seq<Ref>, picked: seq<Ref>)
    requires Once(init) && AllRefs(picked)
    ensures |NamedFirst(init, picked)| >= |init|
  {
    if picked == [] {
      FilterAll(init, |init|, NotIn([]));
    } else {
      var before, p := picked[..|picked| - 1], picked[|picked| - 1];
      NamedFirstLength(init, before);
      assert picked == before + [p];
      FilterTwice(init, |init|, before, p);
      FilterOnce(init, |init|, NotIn(before));
      FilterOne(Filter(init, NotIn(before)), |Filter(init, NotIn(before))|, p);
    }
  }

  /** One more named picture: it takes the place after those already named and leaves the rest of the list. */
  lemma NameOneMore(init: seq<Ref>, picked: seq<Ref>, p: Ref)
    requires Once(init) && |picked| < |init| && AllRefs(picked) && p.Ref?
    ensures |NamedFirst(init, picked)| >= |init| && |NamedFirst(init, picked + [p])| >= |init|
    ensures var n, k := |init|, |picked|;
            var list := NamedFirst(init, picked)[..n];
            var kept := Filter(list[k..], NotIs(p));
            && |kept| >= n - k - 1
            && NamedFirst(init, picked + [p])[..n] == picked + [p] + kept[..n - k - 1]
            && list[..k] == picked
  {
    var n, k := |init|, |picked|;
    var rest := Filter(init, NotIn(picked));
    NamedFirstLength(init, picked);
    NamedFirstLength(init, picked + [p]);
    var list := NamedFirst(init, picked)[..n];
    assert list[k..] == rest[..n - k];
    FilterOnce(init, n, NotIn(picked));
    FilterPrefixOf(rest, n - k, p);
    FilterTwice(init, n, picked, p);
    assert NamedFirst(init, picked + [p]) == picked + [p] + Filter(rest, NotIs(p));
  }

  /** Names beyond the length of the list change nothing. */
  lemma NameTooMany(init: seq<Ref>, picked: seq<Ref>, p: Ref)
    requires Once(init) && |picked| >= |init| && AllRefs(picked) && p.Ref?
    ensures |NamedFirst(init, picked)| >= |init| && |NamedFirst(init, picked + [p])| >= |init|
    ensures NamedFirst(init, picked + [p])[..|init|] == NamedFirst(init, picked)[..|init|]
  {
  }

  lemma NamedFirstMembers(init: seq<Ref>, picked: seq<Ref>)
    ensures forall r :: r in NamedFirst(init, picked) ==> r in init || r in picked
  {
    FilterMembers(init, |init|, NotIn(picked));
  }

  lemma {:induction false} FilterAgree(s: seq<Ref>, n: nat, p: Ref -> bool, q: Ref -> bool)
    requires n <= |s| && forall i :: 0 <= i < n ==> p(s[i]) == q(s[i])
    ensures FilterTo(s, n, p) == FilterTo(s, n, q)
  {
    if n > 0 {
      FilterAgree(s, n - 1, p, q);
    }
  }

  // ---- The loops ------------------------------------------------------------------------------------

  /** (8-37): the numbers by which the compaction recognises a picture. */
  function PicNumF(r: Ref, maxPicNum: int): int {
    if r.Null? then -1 else if r.longTerm then maxPicNum else r.picNum
  }

  function LongTermPicNumF(r: Ref, maxLongTermFrameIdx: int): int
    requires r.Ref?
  {
    if r.longTerm then r.longTermPicNum else 2 * (maxLongTermFrameIdx + 1)
  }

  /** The tests of the two compaction loops. */
  function ShortStays(number: int, maxPicNum: int): Ref -> bool { (r: Ref) => PicNumF(r, maxPicNum) != number }

  function LongStays(number: int, maxLongTermFrameIdx: int): Ref -> bool {
    (r: Ref) => r.Ref? && LongTermPicNumF(r, maxLongTermFrameIdx) != number
  }

  function SetSize(list: seq<Ref>, n: nat): (r: seq<Ref>)
    ensures |r| == n
    ensures forall i {:trigger r[i]} :: 0 <= i < n ==> r[i] == if i < |list| then list[i] else Null
  {
    if n <= |list| then list[..n] else list + seq(n - |list|, _ => Null)
  }

  /** Makes room at `from`, keeping one element beyond `to`; refuses a place behind the list. */
  method ShiftRightAndInsert(list: seq<Ref>, from: nat, to: int, p: Ref) returns (r: seq<Ref>)
    requires to >= -1
    ensures from > to ==> r == list
    ensures from <= to ==> |r| == to + 3 && r[..from] == SetSize(list, to + 1)[..from] && r[from] == p
                           && r[from + 1..to + 2] == SetSize(list, to + 1)[from..]
  {
    if from > to {
      return list;
    }
    var sized := SetSize(list, to + 2);
    r := sized[..from] + [p] + sized[from..];
    assert r[from + 1..to + 2] == sized[from..to + 1] == SetSize(list, to + 1)[from..];
  }

  lemma MoveDown(list: seq<Ref>, r: seq<Ref>, from: nat, dst: nat, src: nat)
    requires |r| == |list| && from <= dst <= src < |r| && r[dst..] == list[dst..]
    ensures r[src] == list[src]
    ensures var q := r[dst := r[src]];
            && q[..from] == r[..from] && q[from..dst + 1] == r[from..dst] + [list[src]]
            && q[dst + 1..] == list[dst + 1..]
  {
    assert r[src] == r[dst..][src - dst] == list[dst..][src - dst];
    assert r[dst + 1..] == r[dst..][1..] == list[dst + 1..];
  }

  /** Moves the elements that stay to the front of list[from..to + 2], in place. */
  method Compact(list: seq<Ref>, from: nat, to: int, stays: Ref -> bool) returns (r: seq<Ref>)
    requires from <= to + 2 ==> |list| >= to + 2
    requires to >= -1
    ensures |r| == |list|
    ensures from > to + 1 ==> r == list
    ensures from <= to + 1 ==>
              var kept := Filter(list[from..to + 2], stays);
              && r[..from] == list[..from] && r[from..from + |kept|] == kept
              && r[from + |kept|..] == list[from + |kept|..]
  {
    r := list;
    if from > to + 1 {
      return;
    }
    ghost var part := list[from..to + 2];
    var dst := from;
    for src := from to to + 2
      invariant |r| == |list| && from <= dst <= src
      invariant r[..from] == list[..from]
      invariant r[from..dst] == FilterTo(part, src - from, stays)
      invariant r[dst..] == list[dst..]
    {
      MoveDown(list, r, from, dst, src);
      assert part[src - from] == r[src];
      if stays(r[src]) {
        r := r[dst := r[src]];
        dst := dst + 1;
      }
    }
  }

  /** Every place is unfilled or holds a reference of the buffer. */
  predicate Places(s: seq<Ref>, refs: seq<Ref>) {
    forall i :: 0 <= i < |s| ==> s[i].Null? || s[i] in refs
  }

  /** A short-term picture that does not bear the number -1, which stands for unfilled places. */
  predicate Tellable(p: Ref) { p.Ref? && !p.longTerm && p.picNum != -1 }

  /** The test of the compaction recognises p alone. */
  predicate Recognised(tail: seq<Ref>, p: Ref) {
    p.Ref? && (AllRefs(tail) || Tellable(p))
  }

  /** What the tests keep of a list is everything but the picture just inserted. */
  lemma ShortTestIsNotIs(tail: seq<Ref>, p: Ref, ctx: Context)
    requires Numbered(ctx) && p in ctx.refs && !p.longTerm && Places(tail, ctx.refs) && Recognised(tail, p)
    ensures Filter(tail, ShortStays(p.picNum, ctx.maxPicNum)) == Filter(tail, NotIs(p))
  {
    FilterAgree(tail, |tail|, ShortStays(p.picNum, ctx.maxPicNum), NotIs(p));
  }

  lemma LongTestIsNotIs(tail: seq<Ref>, p: Ref, ctx: Context)
    requires Numbered(ctx) && p in ctx.refs && p.longTerm && Places(tail, ctx.refs) && Recognised(tail, p)
    ensures Filter(tail, LongStays(p.longTermPicNum, ctx.maxLongTermFrameIdx)) == Filter(tail, NotIs(p))
  {
    FilterAgree(tail, |tail|, LongStays(p.longTermPicNum, ctx.maxLongTermFrameIdx), NotIs(p));
  }

  /** The places of the modified list are places of the initial list, or named pictures. */
  lemma TailPlaces(init: seq<Ref>, picked: seq<Ref>, list: seq<Ref>, k: nat, n: nat, refs: seq<Ref>)
    requires Places(init, refs) && Places(picked, refs) && AllRefs(picked)
    requires k <= n == |list| <= |NamedFirst(init, picked)| && list == NamedFirst(init, picked)[..n]
    ensures Places(list[k..], refs) && (AllRefs(init) ==> AllRefs(list[k..]))
  {
    NamedFirstMembers(init, picked);
    forall i | 0 <= i < n - k
      ensures list[k..][i] in init || list[k..][i] in picked
    {
      assert list[k..][i] == NamedFirst(init, picked)[k + i];
    }
  }

  /** The test by which a named picture is recognised in the tail of the list. */
  function Stays(p: Ref, ctx: Context): Ref -> bool {
    if p.Ref? && p.longTerm then LongStays(p.longTermPicNum, ctx.maxLongTermFrameIdx)
    else ShortStays(PicNumF(p, ctx.maxPicNum), ctx.maxPicNum)
  }

  /** A list after one named picture: it stands at k, and the tail has been compacted over itself. */
  function Inserted(list: seq<Ref>, k: nat, p: Ref, ctx: Context): (r: seq<Ref>)
    ensures |r| == |list|
  {
    if k >= |list| then list
    else
      var tail := list[k..];
      var kept := Filter(tail, Stays(p, ctx));
      (list[..k] + [p] + kept + tail[|kept|..])[..|list|]
  }

  predicate FullFrom(list: seq<Ref>, k: nat) {
    forall i :: k <= i < |list| ==> list[i].Ref?
  }

  /** One resolved command: insert, then compact. Reading a long-term number needs a filled place. */
  method InsertPicture(list: seq<Ref>, refIdx: nat, n: nat, p: Ref, maxPicNum: int, maxLongTermFrameIdx: int,
                       ghost ctx: Context)
    returns (r: seq<Ref>)
    requires ctx.maxPicNum == maxPicNum && ctx.maxLongTermFrameIdx == maxLongTermFrameIdx
    requires n > 0 && p.Ref? && (p.longTerm ==> FullFrom(SetSize(list, n), refIdx))
    ensures SetSize(r, n) == Inserted(SetSize(list, n), refIdx, p, ctx)
    ensures |r| == |list| || |r| > n
  {
    hide Filter;
    r := ShiftRightAndInsert(list, refIdx, n - 1, p);
    if refIdx >= n {
      return;
    }
    ghost var sized, shifted := SetSize(list, n), r;
    if p.longTerm {
      r := Compact(r, refIdx + 1, n - 1, LongStays(p.longTermPicNum, maxLongTermFrameIdx));
    } else {
      r := Compact(r, refIdx + 1, n - 1, ShortStays(p.picNum, maxPicNum));
    }
    Assemble(sized, refIdx, p, shifted, r, Filter(sized[refIdx..], Stays(p, ctx)));
  }

  lemma Assemble(sized: seq<Ref>, k: nat, p: Ref, shifted: seq<Ref>, r: seq<Ref>, kept: seq<Ref>)
    requires k < |sized| < |shifted| == |r| && |kept| <= |sized| - k
    requires shifted[..k] == sized[..k] && shifted[k] == p && shifted[k + 1..|sized| + 1] == sized[k..]
    requires r[..k + 1] == shifted[..k + 1] && r[k + 1..k + 1 + |kept|] == kept
    requires r[k + 1 + |kept|..] == shifted[k + 1 + |kept|..]
    ensures SetSize(r, |sized|) == (sized[..k] + [p] + kept + sized[k..][|kept|..])[..|sized|]
  {
    var tail, n := sized[k..], |sized|;
    forall i | 0 <= i < n
      ensures r[i] == (sized[..k] + [p] + kept + tail[|kept|..])[i]
    {
      if i <= k {
        assert r[i] == r[..k + 1][i] == shifted[..k + 1][i] == shifted[i];
        assert i < k ==> shifted[i] == shifted[..k][i];
      } else if i < k + 1 + |kept| {
        assert r[i] == r[k + 1..k + 1 + |kept|][i - k - 1];
      } else {
        var j := k + 1 + |kept|;
        assert r[i] == r[j..][i - j] == shifted[j..][i - j] == shifted[i] == shifted[k + 1..n + 1][i - k - 1];
      }
    }
  }

  lemma {:induction false} AllTaken(tail: seq<Ref>, number: int, maxPicNum: int)
    requires forall i :: 0 <= i < |tail| ==> PicNumF(tail[i], maxPicNum) == number
    ensures Filter(tail, ShortStays(number, maxPicNum)) == []
  {
    FilterNone(tail, ShortStays(number, maxPicNum), |tail|);
  }

  function Unfilled(m: nat): (s: seq<Ref>)
    ensures |s| == m && forall i {:trigger s[i]} :: 0 <= i < m ==> s[i] == Null
  {
    seq(m, _ => Null)
  }

  lemma UnfilledParts(rest: seq<Ref>, m: nat, p: Ref, ctx: Context)
    requires Numbered(ctx) && ctx.maxPicNum > 0 && p in ctx.refs && !p.longTerm && p.picNum == -1
    requires Places(rest, ctx.refs) && AllRefs(rest)
    ensures Filter(rest + Unfilled(m), ShortStays(-1, ctx.maxPicNum)) == Filter(rest, NotIs(p))
    ensures Filter(rest + Unfilled(m), NotIs(p)) == Filter(rest, NotIs(p)) + Unfilled(m)
  {
    FilterConcat(rest, Unfilled(m), ShortStays(-1, ctx.maxPicNum));
    FilterConcat(rest, Unfilled(m), NotIs(p));
    AllTaken(Unfilled(m), -1, ctx.maxPicNum);
    FilterAll(Unfilled(m), m, NotIs(p));
    ShortTestIsNotIs(rest, p, ctx);
  }

  /** A picture that bears the number -1, named while places are unfilled: the tail of the list, compacted over itself,
      is right if and only if the picture did not stand in it. Otherwise the last picture of the tail is left behind
      where it stood, and it also stands before: at the named picture's place or among those kept. */
  lemma UnfilledTakenIff(rest: seq<Ref>, m: nat, p: Ref, ctx: Context)
    requires Numbered(ctx) && ctx.maxPicNum > 0 && p in ctx.refs && !p.longTerm && p.picNum == -1
    requires Places(rest, ctx.refs) && AllRefs(rest) && m > 0
    ensures var tail := rest + Unfilled(m);
            var kept, right := Filter(tail, ShortStays(-1, ctx.maxPicNum)), Filter(tail, NotIs(p));
            var compacted := kept + tail[|kept|..];
            && ((forall i :: 0 <= i < |tail| - 1 && i < |right| ==> compacted[i] == right[i]) <==> p !in rest)
            && (rest != [] ==> compacted[|rest| - 1] == rest[|rest| - 1])
            && (p in rest ==> |kept| < |rest| && rest[|rest| - 1] in [p] + kept)
  {
    hide Filter, Numbered;
    var tail := rest + Unfilled(m);
    var kept, right := Filter(tail, ShortStays(-1, ctx.maxPicNum)), Filter(tail, NotIs(p));
    UnfilledParts(rest, m, p, ctx);
    if p in rest {
      FilterDrops(rest, p);
      LastKept(rest, p);
      var compacted := kept + tail[|kept|..];
      assert compacted[|kept|] == rest[|kept|] && right[|kept|] == Null;
    } else {
      NothingDropped(rest, p);
    }
  }

  lemma FilterDrops(s: seq<Ref>, p: Ref)
    requires p in s
    ensures |Filter(s, NotIs(p))| < |s|
  {
    var i :| 0 <= i < |s| && s[i] == p;
    FilterAt(s, i, NotIs(p));
  }

  lemma LastKept(s: seq<Ref>, p: Ref)
    requires s != []
    ensures s[|s| - 1] in [p] + Filter(s, NotIs(p))
  {
    var x := s[|s| - 1];
    if x == p {
      assert ([p] + Filter(s, NotIs(p)))[0] == x;
    } else {
      FilterAt(s, |s| - 1, NotIs(p));
      assert x in Filter(s, NotIs(p));
    }
  }

  lemma NothingDropped(s: seq<Ref>, p: Ref)
    requires p !in s
    ensures Filter(s, NotIs(p)) == s
  {
    FilterAll(s, |s|, NotIs(p));
  }

  // ---- Lists with unfilled places ---------------------------------------------------------------------

  /** The list after all these pictures have been named. */
  function Modified(init: seq<Ref>, picked: seq<Ref>, ctx: Context): (r: seq<Ref>)
    ensures |r| == |init|
  {
    if picked == [] then init
    else Inserted(Modified(init, picked[..|picked| - 1], ctx), |picked| - 1, picked[|picked| - 1], ctx)
  }

  /** No long-term picture is named while a place at or behind its own is unfilled: there the program would read the
      number of no picture. */
  ghost predicate Readable(init: seq<Ref>, picked: seq<Ref>, ctx: Context) {
    forall k {:trigger picked[k]} :: 0 <= k < |picked| && picked[k].Ref? && picked[k].longTerm ==>
      FullFrom(Modified(init, picked[..k], ctx), k)
  }

  /** The named pictures first, the rest of the initial list behind them, cut to length. */
  function Wanted(init: seq<Ref>, picked: seq<Ref>): (r: seq<Ref>)
    ensures |r| == |init|
  {
    SetSize(NamedFirst(init, picked), |init|)
  }

  /** p bears the number -1 and stands behind the pictures named so far, in a list with an unfilled place. */
  predicate Mistaken(init: seq<Ref>, picked: seq<Ref>, p: Ref) {
    && p.Ref? && !p.longTerm && p.picNum == -1 && |picked| < |init|
    && p in Wanted(init, picked)[|picked|..] && Null in Wanted(init, picked)[|picked|..]
  }

  ghost predicate NeverMistaken(init: seq<Ref>, picked: seq<Ref>) {
    forall k {:trigger picked[k]} :: 0 <= k < |picked| ==> !Mistaken(init, picked[..k], picked[k])
  }

  /** The list is right after every single command. */
  predicate AlwaysWanted(init: seq<Ref>, picked: seq<Ref>, ctx: Context) {
    Modified(init, picked, ctx) == Wanted(init, picked)
    && (picked == [] || AlwaysWanted(init, picked[..|picked| - 1], ctx))
  }

  /** The references of the buffer that the initial list and the commands may name. */
  ghost predicate Lists(initial: seq<Ref>, picked: seq<Ref>, ctx: Context) {
    && Numbered(ctx) && ctx.maxPicNum > 0 && Injective(initial)
    && (forall x :: x in initial ==> x in ctx.refs) && (forall x :: x in picked ==> x in ctx.refs)
  }

  lemma WantedIsNamedFirst(initial: seq<Ref>, n: nat, picked: seq<Ref>, ctx: Context)
    requires Lists(initial, picked, ctx)
    ensures var init := SetSize(initial, n);
            && |NamedFirst(init, picked)| >= n && Wanted(init, picked) == NamedFirst(init, picked)[..n]
            && Once(init) && Places(init, ctx.refs) && (|initial| >= n ==> AllRefs(init))
            && AllRefs(picked) && Places(picked, ctx.refs)
  {
    InitialPlaces(initial, n, ctx);
    NamedFirstLength(SetSize(initial, n), picked);
  }

  lemma StaysIsNotIs(tail: seq<Ref>, p: Ref, ctx: Context)
    requires Numbered(ctx) && p in ctx.refs && Places(tail, ctx.refs) && Recognised(tail, p)
    ensures Filter(tail, Stays(p, ctx)) == Filter(tail, NotIs(p))
  {
    if p.longTerm {
      LongTestIsNotIs(tail, p, ctx);
    } else {
      ShortTestIsNotIs(tail, p, ctx);
    }
  }

  lemma InsertedRecognised(list: seq<Ref>, k: nat, p: Ref, ctx: Context)
    requires k < |list| && Filter(list[k..], Stays(p, ctx)) == Filter(list[k..], NotIs(p))
    requires |Filter(list[k..], NotIs(p))| >= |list| - k - 1
    ensures Inserted(list, k, p, ctx) == list[..k] + [p] + Filter(list[k..], NotIs(p))[..|list| - k - 1]
  {
  }

  /** Behind the named pictures: the references not named, then the unfilled places. */
  lemma TailShape(initial: seq<Ref>, n: nat, picked: seq<Ref>, ctx: Context) returns (rest: seq<Ref>, m: nat)
    requires Lists(initial, picked, ctx) && |picked| < n
    requires !AllRefs(Wanted(SetSize(initial, n), picked)[|picked|..])
    ensures Wanted(SetSize(initial, n), picked)[|picked|..] == rest + Unfilled(m) && m > 0
    ensures AllRefs(rest) && Places(rest, ctx.refs)
  {
    var init, k := SetSize(initial, n), |picked|;
    WantedIsNamedFirst(initial, n, picked, ctx);
    TailPlaces(init, picked, Wanted(init, picked), k, n, ctx.refs);
    var j := n - |initial|;
    assert init == initial + Unfilled(j);
    rest := Filter(initial, NotIn(picked));
    FilterConcat(initial, Unfilled(j), NotIn(picked));
    FilterAll(Unfilled(j), j, NotIn(picked));
    FilterMembers(initial, |initial|, NotIn(picked));
    RestPlaces(initial, picked, ctx);
    assert Wanted(init, picked)[k..] == (rest + Unfilled(j))[..n - k];
    m := n - k - |rest|;
    assert (rest + Unfilled(j))[..n - k] == rest + Unfilled(m);
  }

  lemma RestPlaces(initial: seq<Ref>, picked: seq<Ref>, ctx: Context)
    requires Numbered(ctx) && forall x :: x in initial ==> x in ctx.refs
    ensures AllRefs(Filter(initial, NotIn(picked))) && Places(Filter(initial, NotIn(picked)), ctx.refs)
  {
    FilterMembers(initial, |initial|, NotIn(picked));
    var rest := Filter(initial, NotIn(picked));
    forall i | 0 <= i < |rest|
      ensures rest[i] in ctx.refs
    {
      assert rest[i] in initial[..|initial|];
    }
  }

  lemma InsertedOverUnfilled(list: seq<Ref>, k: nat, p: Ref, rest: seq<Ref>, m: nat, ctx: Context)
    requires Numbered(ctx) && ctx.maxPicNum > 0 && p in ctx.refs && !p.longTerm && p.picNum == -1
    requires k < |list| && list[k..] == rest + Unfilled(m) && m > 0 && AllRefs(rest) && Places(rest, ctx.refs)
    requires |Filter(list[k..], NotIs(p))| >= |list| - k - 1
    ensures Inserted(list, k, p, ctx) == list[..k] + [p] + Filter(list[k..], NotIs(p))[..|list| - k - 1]
            <==> p !in rest
  {
    hide Filter, Numbered;
    UnfilledTakenIff(rest, m, p, ctx);
    var tail, n := list[k..], |list|;
    var kept, right := Filter(tail, Stays(p, ctx)), Filter(tail, NotIs(p));
    var compacted := kept + tail[|kept|..];
    assert Inserted(list, k, p, ctx) == list[..k] + [p] + compacted[..n - k - 1];
    SameTail(list[..k] + [p], compacted[..n - k - 1], right[..n - k - 1]);
  }

  lemma SameTail(a: seq<Ref>, b: seq<Ref>, c: seq<Ref>)
    requires |b| == |c|
    ensures a + b == a + c <==> forall i :: 0 <= i < |b| ==> b[i] == c[i]
  {
    if a + b == a + c {
      assert (a + b)[|a|..] == b && (a + c)[|a|..] == c;
    }
  }

  /** One command on a list that is right: it stays right unless the command is mistaken. */
  lemma InsertedIsWantedIff(initial: seq<Ref>, n: nat, picked: seq<Ref>, p: Ref, ctx: Context)
    requires Lists(initial, picked, ctx) && p in ctx.refs
    requires p.Ref? && p.longTerm ==> FullFrom(Wanted(SetSize(initial, n), picked), |picked|)
    ensures var init := SetSize(initial, n);
            Inserted(Wanted(init, picked), |picked|, p, ctx) == Wanted(init, picked + [p])
            <==> !Mistaken(init, picked, p)
  {
    hide NamedFirst, Filter, Once, Numbered, Wanted;
    var init, k := SetSize(initial, n), |picked|;
    var list := Wanted(init, picked);
    WantedIsNamedFirst(initial, n, picked, ctx);
    WantedIsNamedFirst(initial, n, picked + [p], ctx);
    assert (picked + [p])[k] == p;
    if k >= n {
      NameTooMany(init, picked, p);
      assert Inserted(list, k, p, ctx) == list;
    } else {
      NameOneMore(init, picked, p);
      TailPlaces(init, picked, list, k, n, ctx.refs);
      if AllRefs(list[k..]) || Tellable(p) {
        StaysIsNotIs(list[k..], p, ctx);
        InsertedRecognised(list, k, p, ctx);
      } else {
        var rest, m := TailShape(initial, n, picked, ctx);
        InsertedOverUnfilled(list, k, p, rest, m, ctx);
      }
    }
  }

  // ---- The whole modification -------------------------------------------------------------------------

  /** One command: the next prediction, whether it ends the list, and the picture it names, or -1. */
  method Resolve(c: Cmd, predBefore: int, ctx: Context, ghost picked: seq<Ref>) returns (pred: int, done: bool, k: int)
    ensures -1 <= k < |ctx.refs|
    ensures Step(Progress(picked, predBefore, false), c, ctx)
         == Progress(if k < 0 then picked else picked + [ctx.refs[k]], pred, done)
  {
    pred, done, k := predBefore, false, -1;
    if c.idc == 0 || c.idc == 1 {
      if c.idc == 0 {
        pred := pred - (c.value + 1);
        if pred < 0 {
          pred := pred + ctx.maxPicNum;
        }
      } else {
        pred := pred + (c.value + 1);
        if pred >= ctx.maxPicNum {
          pred := pred - ctx.maxPicNum;
        }
      }
      var picNumLx := if pred > ctx.picNum then pred - ctx.maxPicNum else pred;
      k := Find(ctx.refs, ShortWith(picNumLx));
    } else if c.idc == 2 {
      k := Find(ctx.refs, LongWith(c.value));
    } else if c.idc == 3 {
      done := true;
    }
  }

  /** Over every list of commands: the list is right after each of them if and only if none is mistaken. */
  lemma {:induction false} ModifiedIsWantedIff(initial: seq<Ref>, n: nat, picked: seq<Ref>, ctx: Context)
    requires Lists(initial, picked, ctx) && Readable(SetSize(initial, n), picked, ctx)
    ensures AlwaysWanted(SetSize(initial, n), picked, ctx) <==> NeverMistaken(SetSize(initial, n), picked)
  {
    hide Inserted, Mistaken, Wanted, SetSize, FullFrom, Lists, Readable, NeverMistaken;
    var init := SetSize(initial, n);
    if picked == [] {
      NothingNamed(initial, n, ctx);
    } else {
      var before, p := picked[..|picked| - 1], picked[|picked| - 1];
      PrefixLists(initial, picked, ctx);
      PrefixReadable(init, picked, ctx);
      ModifiedIsWantedIff(initial, n, before, ctx);
      NeverMistakenLast(init, picked);
      assert picked == before + [p];
      if AlwaysWanted(init, before, ctx) {
        InsertedIsWantedIff(initial, n, before, p, ctx);
      }
    }
  }

  lemma NothingNamed(initial: seq<Ref>, n: nat, ctx: Context)
    requires Lists(initial, [], ctx)
    ensures Wanted(SetSize(initial, n), []) == SetSize(initial, n) && NeverMistaken(SetSize(initial, n), [])
  {
    NamedFirstNone(SetSize(initial, n));
  }

  lemma PrefixLists(initial: seq<Ref>, picked: seq<Ref>, ctx: Context)
    requires picked != [] && Lists(initial, picked, ctx)
    ensures Lists(initial, picked[..|picked| - 1], ctx) && picked[|picked| - 1] in ctx.refs
  {
  }

  lemma PrefixReadable(init: seq<Ref>, picked: seq<Ref>, ctx: Context)
    requires picked != [] && Readable(init, picked, ctx)
    ensures var before, p := picked[..|picked| - 1], picked[|picked| - 1];
            && Readable(init, before, ctx)
            && (p.Ref? && p.longTerm ==> FullFrom(Modified(init, before, ctx), |before|))
  {
    hide Modified, FullFrom;
    var before := picked[..|picked| - 1];
    forall k {:trigger before[k]} | 0 <= k < |before| && before[k].Ref? && before[k].longTerm
      ensures FullFrom(Modified(init, before[..k], ctx), k)
    {
      assert before[..k] == picked[..k] && before[k] == picked[k];
    }
  }

  lemma NeverMistakenLast(init: seq<Ref>, picked: seq<Ref>)
    requires picked != []
    ensures var before, p := picked[..|picked| - 1], picked[|picked| - 1];
            NeverMistaken(init, picked) <==> NeverMistaken(init, before) && !Mistaken(init, before, p)
  {
    hide Mistaken;
    var before := picked[..|picked| - 1];
    assert forall k :: 0 <= k < |before| ==> before[..k] == picked[..k] && before[k] == picked[k];
  }

  /** A list without unfilled places stays so: there every command list is readable and none is mistaken. */
  lemma {:induction false} FullListIsReadable(init: seq<Ref>, picked: seq<Ref>, ctx: Context)
    requires AllRefs(init) && AllRefs(picked)
    ensures AllRefs(Modified(init, picked, ctx)) && Readable(init, picked, ctx)
  {
    hide Filter;
    if picked != [] {
      var before, p := picked[..|picked| - 1], picked[|picked| - 1];
      FullListIsReadable(init, before, ctx);
      InsertedKeepsFull(Modified(init, before, ctx), |before|, p, ctx);
      forall k {:trigger picked[k]} | 0 <= k < |picked| && picked[k].Ref? && picked[k].longTerm
        ensures FullFrom(Modified(init, picked[..k], ctx), k)
      {
        if k < |before| {
          assert before[k] == picked[k] && before[..k] == picked[..k];
        }
      }
    }
  }

  lemma InsertedKeepsFull(list: seq<Ref>, k: nat, p: Ref, ctx: Context)
    requires AllRefs(list) && p.Ref?
    ensures AllRefs(Inserted(list, k, p, ctx))
  {
    if k < |list| {
      var tail := list[k..];
      FilterMembers(tail, |tail|, Stays(p, ctx));
      var kept := Filter(tail, Stays(p, ctx));
      forall i | 0 <= i < |kept|
        ensures kept[i].Ref?
      {
        assert kept[i] in tail[..|tail|];
      }
    }
  }

  /** Whatever the commands: the list that single commands lead to; and, when none is mistaken, exactly the first n of
      the named pictures in command order followed by the rest of the initial list. Commands that name no picture are
      skipped. A list shorter than n counts as filled up with unfilled places. */
  method ModifyRefPicList(initial: seq<Ref>, n: nat, flag: bool, cmds: seq<Cmd>, ctx: Context) returns (list: seq<Ref>)
    requires n > 0 && Lists(initial, Commanded(cmds, ctx), ctx)
    requires flag && |initial| < n ==> Readable(SetSize(initial, n), Commanded(cmds, ctx), ctx)
    ensures |list| <= n && (|initial| >= n ==> |list| == n)
    ensures !flag ==> list == if |initial| > n then initial[..n] else initial
    ensures flag ==> SetSize(list, n) == Modified(SetSize(initial, n), Commanded(cmds, ctx), ctx)
    ensures flag && NeverMistaken(SetSize(initial, n), Commanded(cmds, ctx)) ==>
              && |NamedFirst(SetSize(initial, n), Commanded(cmds, ctx))| >= n
              && SetSize(list, n) == NamedFirst(SetSize(initial, n), Commanded(cmds, ctx))[..n]
  {
    hide NamedFirst, Numbered, Injective, Once, Commanded, SetSize, Step, ReadTo, Modified, Readable, NeverMistaken;
    hide Places, AllRefs, Find, Inserted, FullFrom;
    list := initial;
    if |list| > n {
      list := SetSize(list, n);
    }
    if !flag {
      return;
    }
    ghost var init, all := SetSize(initial, n), Commanded(cmds, ctx);
    WantedIsNamedFirst(initial, n, all, ctx);
    if |initial| >= n {
      FullListIsReadable(init, all, ctx);
    }
    ghost var picked: seq<Ref> := [];
    SizedTwice(initial, n);
    ReadNothing(cmds, ctx);
    ModifiedNone(init, ctx);
    var pred, refIdx, done, i := ctx.picNum, 0, false, 0;
    while i < |cmds| && !done
      invariant 0 <= i <= |cmds| && refIdx == |picked|
      invariant ReadTo(cmds, i, ctx) == Progress(picked, pred, done)
      invariant |initial| >= n ==> |list| >= n
      invariant SetSize(list, n) == Modified(init, picked, ctx)
    {
      var k: int;
      pred, done, k := Resolve(cmds[i], pred, ctx, picked);
      ReadNext(cmds, i, ctx);
      if k >= 0 {
        var p := ctx.refs[k];
        ReadMore(cmds, i + 1, ctx);
        ModifiedMore(init, picked, p, all, ctx);
        list := InsertPicture(list, refIdx, n, p, ctx.maxPicNum, ctx.maxLongTermFrameIdx, ctx);
        refIdx, picked := refIdx + 1, picked + [p];
      }
      i := i + 1;
    }
    ReadDone(cmds, i, ctx);
    SizedTwice(list, n);
    if |list| > n {
      list := SetSize(list, n);
    }
    ModifiedIsWantedIff(initial, n, all, ctx);
  }

  lemma ModifiedNone(init: seq<Ref>, ctx: Context)
    ensures Modified(init, [], ctx) == init
  {
  }

  lemma ModifiedMore(init: seq<Ref>, picked: seq<Ref>, p: Ref, all: seq<Ref>, ctx: Context)
    requires picked + [p] <= all && Readable(init, all, ctx) && AllRefs(all)
    ensures Modified(init, picked + [p], ctx) == Inserted(Modified(init, picked, ctx), |picked|, p, ctx)
    ensures p.Ref? && (p.longTerm ==> FullFrom(Modified(init, picked, ctx), |picked|))
  {
    hide Inserted, FullFrom;
    assert (picked + [p])[..|picked|] == picked;
    assert all[..|picked|] == picked && all[|picked|] == p;
  }

  lemma SizedTwice(list: seq<Ref>, n: nat)
    ensures SetSize(if |list| > n then SetSize(list, n) else list, n) == SetSize(list, n)
    ensures |list| > n ==> SetSize(list, n) == list[..n]
    ensures SetSize(list, n)[..n] == SetSize(list, n)
  {
  }

  lemma InitialPlaces(initial: seq<Ref>, n: nat, ctx: Context)
    requires Numbered(ctx) && Injective(initial) && forall x :: x in initial ==> x in ctx.refs
    ensures var init := SetSize(initial, n);
            Once(init) && Places(init, ctx.refs) && (|initial| >= n ==> AllRefs(init))
  {
  }

  /** What has been named by now is among the named pictures. */
  lemma {:induction false} ReadMore(cmds: seq<Cmd>, n: nat, ctx: Context)
    requires n <= |cmds|
    ensures ReadTo(cmds, n, ctx).picked <= Commanded(cmds, ctx)
    decreases |cmds| - n
  {
    if n < |cmds| {
      ReadMore(cmds, n + 1, ctx);
    }
  }

  lemma NamedFirstNone(init: seq<Ref>)
    ensures NamedFirst(init, []) == init
  {
    FilterAll(init, |init|, NotIn([]));
  }

  lemma ReadNothing(cmds: seq<Cmd>, ctx: Context)
    ensures ReadTo(cmds, 0, ctx) == Progress([], ctx.picNum, false)
  {
  }

  lemma ReadNext(cmds: seq<Cmd>, i: nat, ctx: Context)
    requires i < |cmds|
    ensures ReadTo(cmds, i + 1, ctx) == Step(ReadTo(cmds, i, ctx), cmds[i], ctx)
  {
  }

  /** After the end marker nothing more is read. */
  lemma {:induction false} ReadDone(cmds: seq<Cmd>, n: nat, ctx: Context)
    requires n <= |cmds| && (n == |cmds| || ReadTo(cmds, n, ctx).done)
    ensures Commanded(cmds, ctx) == ReadTo(cmds, n, ctx).picked
    decreases |cmds| - n
  {
    if n < |cmds| {
      ReadDone(cmds, n + 1, ctx);
    }
  }

  // ---- A picture numbered -1 ------------------------------------------------------------------------

  lemma InsertedOverItself(r: Ref, n: nat, ctx: Context)
    requires r.Ref? && !r.longTerm && r.picNum == -1 && n >= 2
    ensures Inserted([r] + Unfilled(n - 1), 0, r, ctx) == [r, r] + Unfilled(n - 2)
  {
    var tail := [r] + Unfilled(n - 1);
    AllTaken(tail, -1, ctx.maxPicNum);
    assert tail[0..] == tail && tail[..0] == [];
    assert Inserted(tail, 0, r, ctx) == ([] + [r] + [] + tail)[..n];
  }

  lemma NothingButNamed(r: Ref, n: nat)
    requires r.Ref? && n >= 1
    ensures Wanted([r] + Unfilled(n - 1), [r]) == [r] + Unfilled(n - 1)
  {
    var rest := Unfilled(n - 1);
    FilterConcat([r], rest, NotIn([r]));
    FilterNone([r], NotIn([r]), 1);
    FilterAll(rest, n - 1, NotIn([r]));
    assert NamedFirst([r] + rest, [r]) == [r] + rest;
  }

  lemma OneReference(r: Ref, ctx: Context)
    requires r.Ref? && !r.longTerm && ctx.refs == [r] && r.picNum < ctx.maxPicNum && 0 < ctx.maxPicNum
    ensures Lists([r], [r], ctx)
  {
  }

  lemma OneCommand(r: Ref, max: int)
    requires r.Ref? && !r.longTerm && r.picNum == -1 && max >= 2
    ensures Commanded([Cmd(0, 0)], Context([r], 0, max, 0)) == [r]
  {
    var ctx := Context([r], 0, max, 0);
    assert ReadTo([Cmd(0, 0)], 0, ctx) == Progress([], 0, false);
    assert ShortWith(-1)(ctx.refs[0]);
    assert ReadTo([Cmd(0, 0)], 1, ctx) == Step(Progress([], 0, false), Cmd(0, 0), ctx);
  }

  /** A frame with the highest frame_num is stored and the current frame_num is 0: the frame gets the number -1. The
      list has room for more, and one command names the frame: it stands in the list twice. */
  method UnfilledTakenForPicture(p: H264DpbSpec.Pic, max: int, n: nat) returns (list: seq<Ref>)
    requires p.ref.ShortTerm? && p.frameNum == max - 1 && max >= 2 && n >= 2
    ensures var r := Ref(p.id, H264DpbSpec.Renumber(0, max)(p).picNum, 0, p.poc, false, false);
            && SetSize(list, n) == [r, r] + Unfilled(n - 2)
            && Wanted(SetSize([r], n), Commanded([Cmd(0, 0)], Context([r], 0, max, 0))) == [r] + Unfilled(n - 1)
  {
    hide Inserted, Commanded, Numbered;
    var r := Ref(p.id, H264DpbSpec.Renumber(0, max)(p).picNum, 0, p.poc, false, false);
    var ctx := Context([r], 0, max, 0);
    OneCommand(r, max);
    OneReference(r, ctx);
    list := ModifyRefPicList([r], n, true, [Cmd(0, 0)], ctx);
    assert SetSize([r], n) == [r] + Unfilled(n - 1);
    assert [r][..0] == [] && Modified([r] + Unfilled(n - 1), [r], ctx) == Inserted([r] + Unfilled(n - 1), 0, r, ctx);
    InsertedOverItself(r, n, ctx);
    NothingButNamed(r, n);
  }

  // ---- Writing the commands ----------------------------------------------------------------------------

  predicate InWindow(picNum: int, ctx: Context) {
    ctx.picNum - ctx.maxPicNum < picNum <= ctx.picNum
  }

  /** Whatever legal difference is sent, the prediction stays a number below MaxPicNum, and the picture number
      decoded lies in the window that ends at the current picture. */
  lemma DecodedInWindow(pred: int, c: Cmd, ctx: Context)
    requires 0 <= pred < ctx.maxPicNum && 0 <= ctx.picNum < ctx.maxPicNum && c.value < ctx.maxPicNum
    ensures 0 <= NoWrap(pred, c, ctx.maxPicNum) < ctx.maxPicNum
    ensures InWindow(Unwrap(NoWrap(pred, c, ctx.maxPicNum), ctx.picNum, ctx.maxPicNum), ctx)
  {
  }

  /** The prediction after a picture has been named. */
  function Target(picNum: int, max: int): int { if picNum < 0 then picNum + max else picNum }

  /** The command an encoder sends to name p. */
  function Encode(pred: int, p: Ref, ctx: Context): Cmd
    requires CanName(p, ctx) && 0 <= pred < ctx.maxPicNum && 0 <= ctx.picNum < ctx.maxPicNum
  {
    var t := Target(p.picNum, ctx.maxPicNum);
    if p.longTerm then Cmd(2, p.longTermPicNum)
    else if t > pred then Cmd(1, t - pred - 1)
    else if t < pred then Cmd(0, pred - t - 1)
    else Cmd(0, ctx.maxPicNum - 1)
  }

  function Predicted(want: seq<Ref>, n: nat, ctx: Context): int
    requires n <= |want|
  {
    if n == 0 then ctx.picNum
    else if want[n - 1].Ref? && !want[n - 1].longTerm then Target(want[n - 1].picNum, ctx.maxPicNum)
    else Predicted(want, n - 1, ctx)
  }

  predicate CanName(r: Ref, ctx: Context) {
    r.Ref? && if r.longTerm then r.longTermPicNum >= 0 else InWindow(r.picNum, ctx)
  }

  ghost predicate Nameable(want: seq<Ref>, ctx: Context) {
    && 0 <= ctx.picNum < ctx.maxPicNum
    && (forall r :: r in want ==> r in ctx.refs && CanName(r, ctx))
  }

  lemma {:induction false} PredictedInRange(want: seq<Ref>, n: nat, ctx: Context)
    requires n <= |want| && Nameable(want, ctx)
    ensures 0 <= Predicted(want, n, ctx) < ctx.maxPicNum
  {
    if n > 0 {
      PredictedInRange(want, n - 1, ctx);
      assert want[n - 1] in want;
    }
  }

  ghost function EncodeAll(want: seq<Ref>, n: nat, ctx: Context): (cmds: seq<Cmd>)
    requires n <= |want| && Nameable(want, ctx)
    ensures |cmds| == n
  {
    if n == 0 then []
    else
      PredictedInRange(want, n - 1, ctx);
      assert want[n - 1] in want;
      EncodeAll(want, n - 1, ctx) + [Encode(Predicted(want, n - 1, ctx), want[n - 1], ctx)]
  }

  lemma {:induction false} ReadSame(a: seq<Cmd>, b: seq<Cmd>, n: nat, ctx: Context)
    requires n <= |a| && n <= |b| && a[..n] == b[..n]
    ensures ReadTo(a, n, ctx) == ReadTo(b, n, ctx)
  {
    if n > 0 {
      assert a[..n][..n - 1] == a[..n - 1] && b[..n][..n - 1] == b[..n - 1];
      assert a[n - 1] == a[..n][n - 1] == b[..n][n - 1];
      ReadSame(a, b, n - 1, ctx);
    }
  }

  /** Reading inverts writing: any sequence of references of the buffer can be named, and is what is read back. */
  lemma {:induction false} ReadInvertsEncode(want: seq<Ref>, n: nat, ctx: Context)
    requires n <= |want| && Nameable(want, ctx) && Numbered(ctx)
    ensures ReadTo(EncodeAll(want, n, ctx), n, ctx) == Progress(want[..n], Predicted(want, n, ctx), false)
  {
    hide Step, Encode, Numbered;
    if n > 0 {
      var before, p := EncodeAll(want, n - 1, ctx), want[n - 1];
      assert p in want;
      ReadInvertsEncode(want, n - 1, ctx);
      ReadSame(EncodeAll(want, n, ctx), before, n - 1, ctx);
      PredictedInRange(want, n - 1, ctx);
      assert want[..n] == want[..n - 1] + [p];
      StepInvertsEncode(Progress(want[..n - 1], Predicted(want, n - 1, ctx), false), p, ctx);
    }
  }

  lemma StepInvertsEncode(s: Progress, p: Ref, ctx: Context)
    requires Numbered(ctx) && p in ctx.refs && CanName(p, ctx)
    requires !s.done && 0 <= s.pred < ctx.maxPicNum && 0 <= ctx.picNum < ctx.maxPicNum
    ensures Step(s, Encode(s.pred, p, ctx), ctx)
         == Progress(s.picked + [p], if p.longTerm then s.pred else Target(p.picNum, ctx.maxPicNum), false)
  {
    var j :| 0 <= j < |ctx.refs| && ctx.refs[j] == p;
    if p.longTerm {
      assert LongWith(p.longTermPicNum)(ctx.refs[j]);
      var k := Find(ctx.refs, LongWith(p.longTermPicNum));
      assert ctx.refs[k] == p;
    } else {
      assert ShortWith(p.picNum)(ctx.refs[j]);
      var k := Find(ctx.refs, ShortWith(p.picNum));
      assert ctx.refs[k] == p;
    }
  }
}
