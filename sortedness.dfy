/** Merge-insertion sorts when each group's search covers 2^(power+1) - 1
    elements of the main chain (the corrected search bound of `sort` in
    lib/ford_johnson.rb). The proof keeps, for every element still waiting in
    the lesser chain, a bound on how many elements of the main chain are below
    it: at most what the bounded search can see. */
module Sortedness {
  import opened Pairs
  import opened GroupSizes
  import opened BinaryInsert
  import opened FordJohnson

  /** How many elements of `s` have a key below `k`. */
  function CountBelow(s: seq<Elem>, k: int): (r: nat)
    ensures r <= |s|
  {
    if s == [] then 0
    else (if Key(s[0]) < k then 1 else 0) + CountBelow(s[1..], k)
  }

  lemma {:induction false} CountBelowAppend(a: seq<Elem>, b: seq<Elem>, k: int)
    ensures CountBelow(a + b, k) == CountBelow(a, k) + CountBelow(b, k)
    decreases |a|
  {
    if a == [] {
      assert a + b == b;
    } else {
      assert (a + b)[1..] == a[1..] + b;
      CountBelowAppend(a[1..], b, k);
    }
  }

  /** Inserting one element raises the count by one exactly when it is below `k`. */
  lemma CountBelowInsertAt(s: seq<Elem>, i: int, x: Elem, k: int)
    requires 0 <= i <= |s|
    ensures CountBelow(InsertAt(s, i, x), k) == CountBelow(s, k) + (if Key(x) < k then 1 else 0)
  {
    assert s == s[..i] + s[i..];
    CountBelowAppend(s[..i], s[i..], k);
    CountBelowAppend(s[..i] + [x], s[i..], k);
    CountBelowAppend(s[..i], [x], k);
  }

  /** A prefix of `t` elements, all below `k`, puts the count at least at `t`. */
  lemma {:induction false} CountBelowPrefix(s: seq<Elem>, k: int, t: int)
    requires 0 <= t <= |s|
    requires forall j :: 0 <= j < t ==> Key(s[j]) < k
    ensures CountBelow(s, k) >= t
    decreases t
  {
    if t > 0 {
      CountBelowPrefix(s[1..], k, t - 1);
    }
  }

  /** When nothing from index `t` on is below `k`, the count is at most `t`. */
  lemma {:induction false} CountBelowAtMost(s: seq<Elem>, k: int, t: int)
    requires 0 <= t <= |s|
    requires forall j :: t <= j < |s| ==> k <= Key(s[j])
    ensures CountBelow(s, k) <= t
    decreases |s|
  {
    if s != [] {
      if t == 0 {
        assert k <= Key(s[0]);
        CountBelowAtMost(s[1..], k, 0);
      } else {
        CountBelowAtMost(s[1..], k, t - 1);
      }
    }
  }

  /** Placing `x` where everything before is not above it and everything
      after is not below it keeps a sorted sequence sorted. */
  lemma SortedInsert(s: seq<Elem>, i: int, x: Elem)
    requires 0 <= i <= |s| && Sorted(s)
    requires forall j :: 0 <= j < i ==> Key(s[j]) <= Key(x)
    requires forall j :: i <= j < |s| ==> Key(x) <= Key(s[j])
    ensures Sorted(InsertAt(s, i, x))
  {
    var r := InsertAt(s, i, x);
    InsertAtPlaces(s, i, x);
    forall p | 0 <= p < |r| ensures r[p] == (if p < i then s[p] else if p == i then x else s[p - 1]) {
      if p < i {
        assert r[..i][p] == s[..i][p];
      } else if p > i {
        assert r[i + 1..][p - i - 1] == s[i..][p - i - 1];
      }
    }
  }

  /** The bounded search keeps a sorted chain sorted as long as fewer than
      `bound` elements of the chain are below the inserted one: the place it
      belongs is then inside the searched prefix or right after it. */
  lemma InsertKeepsSorted(s: seq<Elem>, x: Elem, bound: int)
    requires 0 <= bound <= |s| && Sorted(s)
    requires CountBelow(s, Key(x)) <= bound
    ensures Sorted(InsertAt(s, SearchIdx(x, s, 0, bound), x))
  {
    var idx := SearchIdx(x, s, 0, bound);
    assert Sorted(s[..bound]);
    SearchIdxPlaces(x, s, bound);
    if idx == bound && bound < |s| && Key(s[bound]) < Key(x) {
      CountBelowPrefix(s, Key(x), bound + 1);
      assert false;
    }
    SortedInsert(s, idx, x);
  }

  /** Inserting a group adds at most its size to the count. */
  lemma {:induction false} InsertReversedCount(chain: seq<Elem>, group: seq<Elem>, bound: nat, k: int)
    requires bound <= |chain|
    ensures CountBelow(InsertReversed(chain, group, bound), k) <= CountBelow(chain, k) + |group|
    decreases |group|
  {
    if group != [] {
      var rest := InsertReversed(chain, group[1..], bound);
      InsertReversedCount(chain, group[1..], bound, k);
      CountBelowInsertAt(rest, SearchIdx(group[0], rest, 0, bound), group[0], k);
    }
  }

  /** A group inserted last element first keeps the chain sorted when every
      element of it, together with the group elements inserted before it,
      leaves the count within the bound. */
  lemma {:induction false} InsertReversedSorted(chain: seq<Elem>, group: seq<Elem>, bound: nat)
    requires bound <= |chain| && Sorted(chain)
    requires forall i :: 0 <= i < |group| ==> CountBelow(chain, Key(group[i])) + (|group| - 1 - i) <= bound
    ensures Sorted(InsertReversed(chain, group, bound))
    decreases |group|
  {
    if group != [] {
      var rest := InsertReversed(chain, group[1..], bound);
      forall i | 0 <= i < |group[1..]|
        ensures CountBelow(chain, Key(group[1..][i])) + (|group[1..]| - 1 - i) <= bound
      {
        assert group[1..][i] == group[i + 1];
      }
      InsertReversedSorted(chain, group[1..], bound);
      InsertReversedCount(chain, group[1..], bound, Key(group[0]));
      InsertKeepsSorted(rest, group[0], bound);
    }
  }

  /** The invariant between two groups: `consumed` is what the earlier groups
      took. An element at index i of the lesser chain has at most
      i + 2 + 2 consumed elements of the main chain below it, and no more than
      the main chain's length allows once the rest of the lesser chain is in. */
  predicate PendBounded(chain: seq<Elem>, pend: seq<Elem>, consumed: nat) {
    forall i :: 0 <= i < |pend| ==>
      CountBelow(chain, Key(pend[i])) <= i + 2 + 2 * consumed &&
      CountBelow(chain, Key(pend[i])) + |pend| <= |chain| + 1 + i
  }

  /** Every group's elements stay within the textbook bound. */
  lemma GroupWithinBound(chain: seq<Elem>, pend: seq<Elem>, power: nat)
    requires power >= 1 && pend != []
    requires Fits(|chain|, |pend|, power)
    requires PendBounded(chain, pend, Consumed(power - 1))
    ensures var group := pend[..Taken(power, |pend|)];
            forall i :: 0 <= i < |group| ==>
              CountBelow(chain, Key(group[i])) + (|group| - 1 - i) <= Bound(TextbookBound, power, |chain|)
  {
    var n := Taken(power, |pend|);
    ConsumedBeforeGroup(power);
    forall i | 0 <= i < n
      ensures CountBelow(chain, Key(pend[..n][i])) + (n - 1 - i) <= Bound(TextbookBound, power, |chain|)
    {
      assert pend[..n][i] == pend[i];
    }
  }

  /** After a group, the invariant holds for what is left, with the group
      counted as consumed. */
  lemma PendBoundedStep(chain: seq<Elem>, pend: seq<Elem>, power: nat)
    requires power >= 1 && pend != []
    requires Fits(|chain|, |pend|, power)
    requires PendBounded(chain, pend, Consumed(power - 1))
    ensures PendBounded(InsertReversed(chain, pend[..Taken(power, |pend|)], Bound(TextbookBound, power, |chain|)),
                        pend[Taken(power, |pend|)..], Consumed(power))
  {
    var n := Taken(power, |pend|);
    var bound := Bound(TextbookBound, power, |chain|);
    assert Consumed(power) == Consumed(power - 1) + GroupSize(power);
    var next := InsertReversed(chain, pend[..n], bound);
    var rest := pend[n..];
    forall i | 0 <= i < |rest|
      ensures CountBelow(next, Key(rest[i])) <= i + 2 + 2 * Consumed(power)
      ensures CountBelow(next, Key(rest[i])) + |rest| <= |next| + 1 + i
    {
      assert rest[i] == pend[i + n];
      InsertReversedCount(chain, pend[..n], bound, Key(rest[i]));
    }
  }

  /** What holds between two groups of the insertion phase with the
      textbook bound. */
  predicate Between(chain: seq<Elem>, pend: seq<Elem>, power: nat) {
    power >= 1 && Fits(|chain|, |pend|, power) && Sorted(chain) && PendBounded(chain, pend, Consumed(power - 1))
  }

  /** One group of the insertion phase with the textbook bound keeps the
      chain sorted and carries the invariant over to the next power. */
  lemma GroupKeepsInvariant(chain: seq<Elem>, pend: seq<Elem>, power: nat)
    requires Between(chain, pend, power) && pend != []
    ensures Between(GroupInserted(chain, pend, power, TextbookBound), pend[Taken(power, |pend|)..], power + 1)
  {
    InsertGroupsStep(chain, pend, power, TextbookBound);
    GroupWithinBound(chain, pend, power);
    InsertReversedSorted(chain, pend[..Taken(power, |pend|)], Bound(TextbookBound, power, |chain|));
    PendBoundedStep(chain, pend, power);
  }

  /** The insertion phase with the textbook bound leaves the main chain sorted. */
  lemma {:induction false} InsertGroupsSorted(chain: seq<Elem>, pend: seq<Elem>, power: nat)
    requires Between(chain, pend, power)
    ensures Sorted(InsertGroups(chain, pend, power, TextbookBound))
    decreases |pend|
  {
    if pend != [] {
      GroupKeepsInvariant(chain, pend, power);
      InsertGroupsSorted(GroupInserted(chain, pend, power, TextbookBound), pend[Taken(power, |pend|)..], power + 1);
    }
  }

  /** The main chain `sort` starts from is sorted: the head of the lesser
      chain, then the greater components in the order of their pairs. */
  lemma MainChainSorted(sp: seq<Elem>)
    requires |sp| >= 1 && AllPairs(sp) && Sorted(sp)
    requires forall i :: 0 <= i < |sp| ==> Ordered(sp[i])
    ensures Sorted([sp[0].lesser] + Greaters(sp))
  {
    GreatersSorted(sp);
    assert Ordered(sp[0]);
    SortedCons(sp[0].lesser, Greaters(sp));
  }

  /** The greater components of sorted pairs are sorted: a pair's key is its
      greater component's key. */
  lemma GreatersSorted(sp: seq<Elem>)
    requires AllPairs(sp) && Sorted(sp)
    ensures Sorted(Greaters(sp))
  {
    var g := Greaters(sp);
    forall i, j | 0 <= i < j < |g| ensures Key(g[i]) <= Key(g[j]) {
      assert Key(sp[i]) <= Key(sp[j]);
    }
  }

  /** A head not above the first element keeps a sorted sequence sorted. */
  lemma SortedCons(x: Elem, s: seq<Elem>)
    requires Sorted(s) && (s != [] ==> Key(x) <= Key(s[0]))
    ensures Sorted([x] + s)
  {
    var t := [x] + s;
    forall i, j | 0 <= i < j < |t| ensures Key(t[i]) <= Key(t[j]) {
      if i == 0 {
        assert Key(s[0]) <= Key(s[j - 1]) || j == 1;
      }
    }
  }

  /** The lesser component of the pair at index i is below at most the first
      i + 1 elements of the main chain: the head of the lesser chain and
      the greater components of the pairs up to its own. */
  lemma LesserBelowAtMost(sp: seq<Elem>, i: int)
    requires AllPairs(sp) && Sorted(sp) && 1 <= i < |sp| && Ordered(sp[i])
    ensures CountBelow([sp[0].lesser] + Greaters(sp), Key(sp[i].lesser)) <= i + 1
  {
    var main := [sp[0].lesser] + Greaters(sp);
    forall j | i + 1 <= j < |main| ensures Key(sp[i].lesser) <= Key(main[j]) {
      assert main[j] == sp[j - 1].greater;
    }
    CountBelowAtMost(main, Key(sp[i].lesser), i + 1);
  }

  /** The starting chains satisfy the invariant: a lesser component can only
      be above its own pair's predecessors and the head of the lesser chain,
      and the straggler is above at most the whole main chain. */
  lemma InitialPendBounded(sp: seq<Elem>, stragglers: seq<Elem>)
    requires |sp| >= 1 && AllPairs(sp) && Sorted(sp) && |stragglers| <= 1
    requires forall i :: 0 <= i < |sp| ==> Ordered(sp[i])
    ensures PendBounded([sp[0].lesser] + Greaters(sp), Lessers(sp)[1..] + stragglers, 0)
  {
    var main := [sp[0].lesser] + Greaters(sp);
    var pend := Lessers(sp)[1..] + stragglers;
    forall i | 0 <= i < |pend|
      ensures CountBelow(main, Key(pend[i])) <= i + 2
    {
      if i < |sp| - 1 {
        assert pend[i] == sp[i + 1].lesser;
        LesserBelowAtMost(sp, i + 1);
      }
    }
  }

  /** The pairs the recursive call returns are the normalised pairs,
      reordered, so each is still ordered within itself. */
  lemma SortedPairsOrdered(xs: seq<Elem>, sp: seq<Elem>)
    requires multiset(sp) == multiset(NormalizeAll(AllFrom(xs).0))
    ensures forall i :: 0 <= i < |sp| ==> Ordered(sp[i])
  {
    var pairs := AllFrom(xs).0;
    AllFromRoundTrip(xs);
    var np := NormalizeAll(pairs);
    forall i | 0 <= i < |sp| ensures Ordered(sp[i]) {
      assert sp[i] in multiset(np);
      var j :| 0 <= j < |np| && np[j] == sp[i];
      assert Ordered(Normalize(pairs[j]));
    }
  }

  /** Merge-insertion with the textbook search bound sorts every input. */
  lemma {:induction false} MergeInsertionSorts(xs: seq<Elem>)
    ensures Sorted(MergeInsertion(xs, TextbookBound))
    decreases |xs|
  {
    if |xs| > 1 {
      var (pairs, stragglers) := AllFrom(xs);
      AllFromRoundTrip(xs);
      var sp := MergeInsertion(NormalizeAll(pairs), TextbookBound);
      MergeInsertionSorts(NormalizeAll(pairs));
      ChainsHoldEveryElement(xs, sp);
      SortedPairsOrdered(xs, sp);
      var main := [sp[0].lesser] + Greaters(sp);
      var pend := Lessers(sp)[1..] + stragglers;
      MainChainSorted(sp);
      InitialPendBounded(sp, stragglers);
      InsertGroupsSorted(main, pend, 1);
    }
  }

  predicate AllLeaves(s: seq<Elem>) {
    forall i :: 0 <= i < |s| ==> s[i].Leaf?
  }

  /** Integers have a single sorted arrangement: two sorted sequences of
      leaves holding the same multiset are equal. */
  lemma {:induction false} SortedLeavesUnique(a: seq<Elem>, b: seq<Elem>)
    requires AllLeaves(a) && Sorted(a) && Sorted(b) && multiset(a) == multiset(b)
    ensures a == b
    decreases |a|
  {
    assert |a| == |multiset(a)| == |multiset(b)| == |b|;
    if a != [] {
      SortedHeadsEqual(a, b);
      MultisetTail(a);
      MultisetTail(b);
      assert AllLeaves(a[1..]) && Sorted(a[1..]) && Sorted(b[1..]);
      SortedLeavesUnique(a[1..], b[1..]);
      assert a == [a[0]] + a[1..] && b == [b[0]] + b[1..];
    }
  }

  /** Both heads hold the least key; among leaves that fixes the element. */
  lemma SortedHeadsEqual(a: seq<Elem>, b: seq<Elem>)
    requires AllLeaves(a) && Sorted(a) && Sorted(b) && multiset(a) == multiset(b)
    requires a != [] && b != []
    ensures a[0] == b[0]
  {
    assert a[0] in multiset(b);
    var j :| 0 <= j < |b| && b[j] == a[0];
    assert b[0] in multiset(a);
    var i :| 0 <= i < |a| && a[i] == b[0];
    assert Key(b[0]) <= Key(b[j]) && Key(a[0]) <= Key(a[i]);
  }

  /** With the textbook bound, a sorted sequence of integers comes back
      unchanged. */
  lemma MergeInsertionIdempotent(xs: seq<Elem>)
    requires AllLeaves(xs) && Sorted(xs)
    ensures MergeInsertion(xs, TextbookBound) == xs
  {
    MergeInsertionSorts(xs);
    SortedLeavesUnique(xs, MergeInsertion(xs, TextbookBound));
  }
}
