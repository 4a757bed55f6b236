/** The elements that merge-insertion sorts, and the `Pair` class of
    lib/ford_johnson.rb. Every level of the recursion sorts pairs built from
    the level above, so an element is either an input integer or a pair of
    elements. A pair is only mutated once, by `swap!`, while nothing else
    refers to it, so it is modelled as a value. */
module Pairs {

  datatype Elem = Leaf(v: int) | Pair(lesser: Elem, greater: Elem)

  /** The input integers an element is built from, left to right. */
  function Values(e: Elem): (r: seq<int>)
    ensures |r| >= 1
  {
    match e
    case Leaf(v) => [v]
    case Pair(l, g) => Values(l) + Values(g)
  }

  /** The integer a comparison finally looks at: a leaf's own value, and for a
      pair the key of its greater component, recursively. */
  function Key(e: Elem): int {
    match e
    case Leaf(v) => v
    case Pair(_, g) => Key(g)
  }

  /** The key of an element is the last input integer it is built from. */
  lemma {:induction false} KeyIsLastValue(e: Elem)
    ensures Key(e) == Values(e)[|Values(e)| - 1]
  {
    if e.Pair? {
      KeyIsLastValue(e.greater);
    }
  }

  /** `<=>`: Integer#<=> on leaves; Pair#<=> delegates to the greater
      components and ignores the lesser ones. */
  function Compare(a: Elem, b: Elem): (r: int)
    ensures r == -1 || r == 0 || r == 1
    ensures r < 0 <==> Key(a) < Key(b)
    ensures r == 0 <==> Key(a) == Key(b)
    ensures r > 0 <==> Key(a) > Key(b)
  {
    if a.Pair? && b.Pair? then Compare(a.greater, b.greater)
    else if Key(a) < Key(b) then -1
    else if Key(a) > Key(b) then 1
    else 0
  }

  /** Sorted in the order `<=>` defines. */
  predicate Sorted(s: seq<Elem>) {
    forall i, j :: 0 <= i < j < |s| ==> Key(s[i]) <= Key(s[j])
  }

  predicate AllPairs(ps: seq<Elem>) {
    forall i :: 0 <= i < |ps| ==> ps[i].Pair?
  }

  /** A pair whose lesser component does not compare greater than its greater one. */
  predicate Ordered(p: Elem) {
    p.Pair? && Key(p.lesser) <= Key(p.greater)
  }

  /** Pair#to_a: the two components, which together hold the pair's input
      integers in order; the second carries the pair's key. */
  function ToA(p: Elem): (r: seq<Elem>)
    requires p.Pair?
    ensures |r| == 2 && Values(r[0]) + Values(r[1]) == Values(p)
    ensures Key(r[1]) == Key(p) && Key(r[0]) == Key(p.lesser)
  {
    [p.lesser, p.greater]
  }

  /** The elements an element is made of: a pair's `to_a`, a leaf itself. */
  function Components(e: Elem): (r: seq<Elem>)
    ensures e.Pair? ==> r == ToA(e)
  {
    if e.Pair? then ToA(e) else [e]
  }

  /** The pairs' `to_a` arrays, concatenated. */
  function Unpair(ps: seq<Elem>): seq<Elem>
  {
    if ps == [] then [] else Components(ps[0]) + Unpair(ps[1..])
  }

  /** `sorted_pairs.map(&:lesser)` */
  function Lessers(ps: seq<Elem>): (r: seq<Elem>)
    requires AllPairs(ps)
    ensures |r| == |ps| && forall i :: 0 <= i < |ps| ==> r[i] == ps[i].lesser
  {
    if ps == [] then [] else [ps[0].lesser] + Lessers(ps[1..])
  }

  /** `sorted_pairs.map(&:greater)` */
  function Greaters(ps: seq<Elem>): (r: seq<Elem>)
    requires AllPairs(ps)
    ensures |r| == |ps| && forall i :: 0 <= i < |ps| ==> r[i] == ps[i].greater
  {
    if ps == [] then [] else [ps[0].greater] + Greaters(ps[1..])
  }

  /** Pair.all_from: adjacent pairs, in order, and the straggler list. */
  function AllFrom(xs: seq<Elem>): (r: (seq<Elem>, seq<Elem>))
    ensures |r.0| == |xs| / 2
    ensures forall i :: 0 <= i < |r.0| ==> r.0[i] == Pair(xs[2 * i], xs[2 * i + 1])
    ensures r.1 == if |xs| % 2 == 0 then [] else [xs[|xs| - 1]]
    decreases |xs|
  {
    if |xs| < 2 then ([], xs)
    else
      var (pairs, stragglers) := AllFrom(xs[2..]);
      ([Pair(xs[0], xs[1])] + pairs, stragglers)
  }

  /** Concatenating every pair's `to_a`, then the stragglers, gives the input back. */
  lemma {:induction false} AllFromRoundTrip(xs: seq<Elem>)
    ensures AllPairs(AllFrom(xs).0)
    ensures Unpair(AllFrom(xs).0) + AllFrom(xs).1 == xs
    decreases |xs|
  {
    if |xs| >= 2 {
      AllFromRoundTrip(xs[2..]);
      var (pairs, stragglers) := AllFrom(xs[2..]);
      assert AllFrom(xs).0 == [Pair(xs[0], xs[1])] + pairs;
      assert ([Pair(xs[0], xs[1])] + pairs)[1..] == pairs;
      assert xs == [xs[0], xs[1]] + xs[2..];
    }
  }

  /** Pair#swap! on the pair's value. It exchanges the two components and
      nothing else: `to_a` comes out reversed, exchanging again restores the
      pair, and its key becomes the old lesser component's. */
  function Swap(p: Elem): (r: Elem)
    requires p.Pair?
    ensures r.Pair? && ToA(r) == [p.greater, p.lesser]
    ensures Pair(r.greater, r.lesser) == p
    ensures Key(r) == Key(p.lesser)
  {
    Pair(p.greater, p.lesser)
  }

  /** One step of the normalisation loop: swap when `lesser > greater`. */
  function Normalize(p: Elem): (r: Elem)
    requires p.Pair?
    ensures Ordered(r)
    ensures r == p || r == Pair(p.greater, p.lesser)
    ensures Key(p.lesser) <= Key(p.greater) ==> r == p
  {
    if Compare(p.lesser, p.greater) > 0 then Swap(p) else p
  }

  function NormalizeAll(ps: seq<Elem>): (r: seq<Elem>)
    requires AllPairs(ps)
    ensures |r| == |ps| && forall i :: 0 <= i < |ps| ==> r[i] == Normalize(ps[i])
  {
    if ps == [] then [] else [Normalize(ps[0])] + NormalizeAll(ps[1..])
  }

  /** The normalisation loop of `sort`: every pair of the buffer gets one
      comparison and, when its lesser component is the greater, `swap!`. */
  method NormalizePairs(pairs: array<Elem>)
    requires AllPairs(pairs[..])
    modifies pairs
    ensures AllPairs(old(pairs[..]))
    ensures pairs[..] == NormalizeAll(old(pairs[..]))
    ensures forall i :: 0 <= i < pairs.Length ==> Ordered(pairs[i])
    ensures multiset(Unpair(pairs[..])) == multiset(Unpair(old(pairs[..])))
  {
    ghost var original := pairs[..];
    for i := 0 to pairs.Length
      invariant forall j :: 0 <= j < i ==> pairs[j] == Normalize(original[j])
      invariant forall j :: i <= j < pairs.Length ==> pairs[j] == original[j]
    {
      var p := pairs[i];
      if Compare(p.lesser, p.greater) > 0 {
        pairs[i] := Swap(p);
      }
    }
    NormalizeAllKeepsComponents(original);
  }

  /** Normalising swaps inside pairs only: the same elements remain. */
  lemma {:induction false} NormalizeAllKeepsComponents(ps: seq<Elem>)
    requires AllPairs(ps)
    ensures AllPairs(NormalizeAll(ps))
    ensures multiset(Unpair(NormalizeAll(ps))) == multiset(Unpair(ps))
    decreases |ps|
  {
    var ns := NormalizeAll(ps);
    assert AllPairs(ns) by {
      forall i | 0 <= i < |ns| ensures ns[i].Pair? {
        assert Ordered(Normalize(ps[i]));
      }
    }
    if ps != [] {
      NormalizeAllKeepsComponents(ps[1..]);
      assert ns[1..] == NormalizeAll(ps[1..]);
      calc {
        multiset(Unpair(ns));
        multiset(ToA(ns[0]) + Unpair(ns[1..]));
        multiset(ToA(ns[0])) + multiset(Unpair(ns[1..]));
        { NormalizeKeepsPair(ps[0]); }
        multiset(ToA(ps[0])) + multiset(Unpair(ps[1..]));
        multiset(ToA(ps[0]) + Unpair(ps[1..]));
        multiset(Unpair(ps));
      }
    }
  }

  lemma NormalizeKeepsPair(p: Elem)
    requires p.Pair?
    ensures multiset(ToA(Normalize(p))) == multiset(ToA(p))
  {
    if Normalize(p) != p {
      assert ToA(Normalize(p)) == [p.greater, p.lesser];
    }
  }

  lemma {:induction false} UnpairAppend(a: seq<Elem>, b: seq<Elem>)
    ensures Unpair(a + b) == Unpair(a) + Unpair(b)
    decreases |a|
  {
    if a == [] {
      assert a + b == b;
    } else {
      assert (a + b)[1..] == a[1..] + b;
      UnpairAppend(a[1..], b);
    }
  }

  /** Every element of a pair list is a component of exactly one pair: the
      lesser chain and the greater chain together hold them all. */
  lemma {:induction false} UnpairSplitsIntoChains(ps: seq<Elem>)
    requires AllPairs(ps)
    ensures multiset(Unpair(ps)) == multiset(Lessers(ps)) + multiset(Greaters(ps))
    decreases |ps|
  {
    if ps != [] {
      UnpairSplitsIntoChains(ps[1..]);
    }
  }

  /** Taking the element at index i out of a list takes its components out
      of the list's components. */
  lemma UnpairWithout(qs: seq<Elem>, i: int)
    requires 0 <= i < |qs|
    ensures multiset(Unpair(qs)) == multiset(Components(qs[i])) + multiset(Unpair(qs[..i] + qs[i + 1..]))
  {
    var front, back := qs[..i], qs[i + 1..];
    SplitAt(qs, i);
    UnpairAppend(front, [qs[i]] + back);
    UnpairAppend([qs[i]], back);
    UnpairAppend(front, back);
    assert Unpair([qs[i]]) == Components(qs[i]);
  }

  lemma SplitAt(qs: seq<Elem>, i: int)
    requires 0 <= i < |qs|
    ensures qs == qs[..i] + ([qs[i]] + qs[i + 1..])
  {
  }

  lemma MultisetWithout(qs: seq<Elem>, i: int)
    requires 0 <= i < |qs|
    ensures multiset(qs[..i] + qs[i + 1..]) == multiset(qs) - multiset{qs[i]}
  {
    assert qs == qs[..i] + [qs[i]] + qs[i + 1..];
  }

  /** A reordering of a list of pairs holds only pairs. */
  lemma AllPairsPermutation(ps: seq<Elem>, qs: seq<Elem>)
    requires AllPairs(ps)
    requires multiset(ps) == multiset(qs)
    ensures AllPairs(qs)
  {
    forall i | 0 <= i < |qs| ensures qs[i].Pair? {
      assert qs[i] in multiset(ps);
    }
  }

  /** The first element of a list is somewhere in any reordering of it;
      taking both out leaves reorderings of each other. */
  lemma MatchFirst(ps: seq<Elem>, qs: seq<Elem>) returns (i: int)
    requires ps != [] && multiset(ps) == multiset(qs)
    ensures 0 <= i < |qs| && qs[i] == ps[0]
    ensures multiset(ps[1..]) == multiset(qs[..i] + qs[i + 1..])
  {
    assert ps[0] in multiset(qs);
    i :| 0 <= i < |qs| && qs[i] == ps[0];
    MultisetTail(ps);
    MultisetWithout(qs, i);
  }

  lemma MultisetTail(ps: seq<Elem>)
    requires ps != []
    ensures multiset(ps[1..]) == multiset(ps) - multiset{ps[0]}
  {
    assert ps == [ps[0]] + ps[1..];
  }

  /** Reordering a list of pairs (as the recursive sort does) reorders the
      pairs as wholes: the multiset of their components does not change. */
  lemma {:induction false} UnpairPermutation(ps: seq<Elem>, qs: seq<Elem>)
    requires multiset(ps) == multiset(qs)
    ensures multiset(Unpair(ps)) == multiset(Unpair(qs))
    decreases |ps|
  {
    if ps == [] {
      assert |qs| == |multiset(qs)| == 0;
    } else {
      var i := MatchFirst(ps, qs);
      UnpairPermutation(ps[1..], qs[..i] + qs[i + 1..]);
      UnpairWithout(qs, i);
    }
  }
}
