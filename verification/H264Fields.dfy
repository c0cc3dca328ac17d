/** Field lists (section 8.2.4.2.5 of H.264): the two-cursor loop that alternates the parities. */
module H264Fields {
  import opened Seqs
  import opened H264Modify

  function HasParity(top: bool): Ref -> bool { (r: Ref) => r.Ref? && r.topField == top }

  /** Fields taken in turn, the first kind first, until one kind runs out; then the rest of the other. */
  function Alternate(s: seq<Ref>, o: seq<Ref>): seq<Ref> {
    if s == [] then o
    else if o == [] then s
    else [s[0], o[0]] + Alternate(s[1..], o[1..])
  }

  lemma FilterFront(list: seq<Ref>, i: nat, p: Ref -> bool)
    requires i < |list|
    ensures Filter(list[i..], p)
         == if p(list[i]) then [list[i]] + Filter(list[i + 1..], p) else Filter(list[i + 1..], p)
  {
    assert list[i..] == [list[i]] + list[i + 1..];
    FilterConcat([list[i]], list[i + 1..], p);
    FilterAppend([], list[i], p);
    assert [] + [list[i]] == [list[i]];
  }

  /** The next field of one parity: everything before it is skipped. */
  method NextOfParity(list: seq<Ref>, start: nat, top: bool) returns (next: nat, found: bool)
    requires start <= |list|
    ensures start <= next <= |list| && (start < |list| ==> start < next)
    ensures found ==> 0 < next && HasParity(top)(list[next - 1])
    ensures Filter(list[start..], HasParity(top))
         == if found then [list[next - 1]] + Filter(list[next..], HasParity(top)) else []
    ensures !found ==> next == |list|
  {
    hide Filter;
    next := start;
    FilterEmpty();
    while next < |list|
      invariant start <= next <= |list|
      invariant Filter(list[start..], HasParity(top)) == Filter(list[next..], HasParity(top))
    {
      FilterFront(list, next, HasParity(top));
      next := next + 1;
      if list[next - 1].Ref? && list[next - 1].topField == top {
        return next, true;
      }
    }
    found := false;
    assert list[next..] == [];
    FilterEmpty();
  }

  lemma FilterEmpty()
    ensures forall p: Ref -> bool :: Filter<Ref>([], p) == []
  {
  }

  lemma Rejoin(s: seq<Ref>)
    requires s != []
    ensures s == [s[0]] + s[1..] && multiset(s) == multiset([s[0]]) + multiset(s[1..])
  {
    assert s == [s[0]] + s[1..];
  }

  /** One turn of the loop on the sequences that remain. */
  lemma AlternateTurn(out: seq<Ref>, s: seq<Ref>, o: seq<Ref>)
    ensures s != [] && o != [] ==> out + Alternate(s, o) == out + [s[0]] + [o[0]] + Alternate(s[1..], o[1..])
    ensures s == [] && o != [] ==> out + Alternate(s, o) == out + [o[0]] + Alternate([], o[1..])
    ensures s != [] && o == [] ==> out + Alternate(s, o) == out + [s[0]] + Alternate(s[1..], [])
    ensures out + Alternate([], []) == out
  {
    if s != [] && o != [] {
      var t := Alternate(s[1..], o[1..]);
      assert out + ([s[0], o[0]] + t) == out + [s[0]] + [o[0]] + t;
    } else if o != [] {
      Peel(out, o);
    } else if s != [] {
      Peel(out, s);
      assert Alternate(s[1..], []) == s[1..];
    } else {
      assert out + [] == out;
    }
  }

  lemma Peel(out: seq<Ref>, s: seq<Ref>)
    requires s != []
    ensures out + s == out + [s[0]] + s[1..]
  {
  }

  /** Same parity as the current field first; both parities keep their order. The loop body runs at least once. */
  method InitPictureRefsFields1(top: bool, list: seq<Ref>, before: seq<Ref>) returns (out: seq<Ref>)
    ensures out == before + Alternate(Filter(list, HasParity(top)), Filter(list, HasParity(!top)))
  {
    hide Filter, Alternate;
    out := before;
    var i, j := 0, 0;
    assert list[0..] == list;
    ghost var all := before + Alternate(Filter(list, HasParity(top)), Filter(list, HasParity(!top)));
    var again := true;
    while again
      invariant 0 <= i <= |list| && 0 <= j <= |list|
      invariant all == out + Alternate(Filter(list[i..], HasParity(top)), Filter(list[j..], HasParity(!top)))
      invariant !again ==> i == |list| && j == |list|
      decreases again, |list| - i + |list| - j
    {
      ghost var s, o := Filter(list[i..], HasParity(top)), Filter(list[j..], HasParity(!top));
      AlternateTurn(out, s, o);
      var found;
      i, found := NextOfParity(list, i, top);
      if found {
        out := out + [list[i - 1]];
        DropFirst(list[i - 1], Filter(list[i..], HasParity(top)));
      }
      j, found := NextOfParity(list, j, !top);
      if found {
        out := out + [list[j - 1]];
        DropFirst(list[j - 1], Filter(list[j..], HasParity(!top)));
      }
      again := i < |list| || j < |list|;
      RestOfAll(list);
    }
    AlternateTurn(out, [], []);
    RestOfAll(list);
  }

  lemma DropFirst(x: Ref, t: seq<Ref>)
    ensures ([x] + t)[0] == x && ([x] + t)[1..] == t
  {
  }

  lemma RestOfAll(list: seq<Ref>)
    ensures forall p: Ref -> bool :: Filter<Ref>(list[|list|..], p) == []
  {
    assert list[|list|..] == [];
  }

  /** Positions: even places hold one parity, odd places the other, as long as both last. */
  lemma {:induction false} AlternateAt(s: seq<Ref>, o: seq<Ref>, k: nat)
    requires k < |s| && k < |o|
    ensures |Alternate(s, o)| == |s| + |o|
    ensures Alternate(s, o)[2 * k] == s[k] && Alternate(s, o)[2 * k + 1] == o[k]
  {
    AlternateLength(s, o);
    if k > 0 {
      AlternateAt(s[1..], o[1..], k - 1);
    }
  }

  lemma {:induction false} AlternateLength(s: seq<Ref>, o: seq<Ref>)
    ensures |Alternate(s, o)| == |s| + |o|
  {
    if s != [] && o != [] {
      AlternateLength(s[1..], o[1..]);
    }
  }

  /** The leftover run is the end of the longer parity. */
  lemma {:induction false} AlternateRest(s: seq<Ref>, o: seq<Ref>)
    ensures |Alternate(s, o)| == |s| + |o|
    ensures |s| <= |o| ==> Alternate(s, o)[2 * |s|..] == o[|s|..]
    ensures |o| <= |s| ==> Alternate(s, o)[2 * |o|..] == s[|o|..]
  {
    AlternateLength(s, o);
    if s != [] && o != [] {
      AlternateRest(s[1..], o[1..]);
      var t := Alternate(s[1..], o[1..]);
      assert |s| <= |o| ==> Alternate(s, o)[2 * |s|..] == t[2 * (|s| - 1)..];
      assert |o| <= |s| ==> Alternate(s, o)[2 * |o|..] == t[2 * (|o| - 1)..];
    }
  }

  lemma FilterPrepend(x: Ref, t: seq<Ref>, p: Ref -> bool)
    ensures Filter([x] + t, p) == if p(x) then [x] + Filter(t, p) else Filter(t, p)
  {
    assert ([x] + t)[0..] == [x] + t && ([x] + t)[1..] == t;
    FilterFront([x] + t, 0, p);
  }

  lemma FilterPair(x: Ref, y: Ref, t: seq<Ref>, top: bool)
    requires HasParity(top)(x) && HasParity(!top)(y)
    ensures Filter([x, y] + t, HasParity(top)) == [x] + Filter(t, HasParity(top))
    ensures Filter([x, y] + t, HasParity(!top)) == [y] + Filter(t, HasParity(!top))
  {
    hide Filter;
    assert [x, y] + t == [x] + ([y] + t);
    FilterPrepend(x, [y] + t, HasParity(top));
    FilterPrepend(y, t, HasParity(top));
    FilterPrepend(x, [y] + t, HasParity(!top));
    FilterPrepend(y, t, HasParity(!top));
  }

  ghost predicate AllOf(s: seq<Ref>, top: bool) { forall i :: 0 <= i < |s| ==> HasParity(top)(s[i]) }

  /** Each parity keeps its own order. */
  lemma {:induction false} AlternateKeepsParities(s: seq<Ref>, o: seq<Ref>, top: bool)
    requires AllOf(s, top) && AllOf(o, !top)
    ensures Filter(Alternate(s, o), HasParity(top)) == s && Filter(Alternate(s, o), HasParity(!top)) == o
  {
    hide Filter;
    if s == [] || o == [] {
      FilterPure(s, top);
      FilterPure(o, !top);
    } else {
      AlternateKeepsParities(s[1..], o[1..], top);
      FilterPair(s[0], o[0], Alternate(s[1..], o[1..]), top);
      Rejoin(s);
      Rejoin(o);
    }
  }

  /** Nothing is lost. */
  lemma {:induction false} AlternatePermutes(s: seq<Ref>, o: seq<Ref>)
    ensures multiset(Alternate(s, o)) == multiset(s) + multiset(o)
  {
    if s != [] && o != [] {
      AlternatePermutes(s[1..], o[1..]);
      Rejoin(s);
      Rejoin(o);
    }
  }

  lemma FilterPure(s: seq<Ref>, top: bool)
    requires AllOf(s, top)
    ensures Filter(s, HasParity(top)) == s && Filter(s, HasParity(!top)) == []
  {
    FilterAll(s, |s|, HasParity(top));
    FilterNone(s, HasParity(!top), |s|);
  }
}
