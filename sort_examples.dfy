/** Concrete runs of merge-insertion: the input of the unit test in
    spec/unit/ford_johnson_spec.rb, and the smallest input the search bound
    of the code as written leaves out of order. */
module SortExamples {
  import opened Pairs
  import opened GroupSizes
  import opened BinaryInsert
  import opened FordJohnson
  import opened Sortedness

  /** One level of the recursion: split into pairs, sort the normalised
      pairs, then insert the lesser chain into the main chain. */
  lemma Unfold(xs: seq<Elem>, rule: SearchBound)
    requires |xs| >= 2
    ensures var sortedPairs := MergeInsertion(NormalizeAll(AllFrom(xs).0), rule);
            AllPairs(sortedPairs) && |sortedPairs| == |xs| / 2 &&
            Fits(1 + |sortedPairs|, |sortedPairs| - 1 + |AllFrom(xs).1|, 1) &&
            MergeInsertion(xs, rule)
            == InsertGroups([sortedPairs[0].lesser] + Greaters(sortedPairs), Lessers(sortedPairs)[1..] + AllFrom(xs).1, 1, rule)
  {
    ChainsHoldEveryElement(xs, MergeInsertion(NormalizeAll(AllFrom(xs).0), rule));
  }

  /** Two ordered pairs whose greater components are already in order come
      back from the recursive sort unchanged. */
  lemma TwoOrderedPairs(p: Elem, q: Elem, rule: SearchBound)
    requires Ordered(p) && Ordered(q) && Key(p) <= Key(q)
    ensures MergeInsertion([p, q], rule) == [p, q]
  {
    var pq := Pair(p, q);
    assert AllFrom([p, q]).0 == [pq] && AllFrom([p, q]).1 == [];
    assert NormalizeAll([pq]) == [pq];
    Unfold([p, q], rule);
    assert [pq][0].lesser == p && Greaters([pq]) == [q] && Lessers([pq])[1..] == [];
  }

  /** The insertion phase for sort([6, 2, 4, 9]): the main chain is
      [2, 6, 9], the lesser chain [4]; 4 is searched for among [2, 6]. */
  lemma UnitTestInsertion(main: seq<Elem>, pend: seq<Elem>)
    requires main == [Leaf(2), Leaf(6), Leaf(9)] && pend == [Leaf(4)]
    ensures Fits(|main|, |pend|, 1)
    ensures InsertGroups(main, pend, 1, GroupSizeBound) == [Leaf(2), Leaf(4), Leaf(6), Leaf(9)]
  {
    assert SearchIdx(Leaf(4), main, 0, 2) == 1;
    assert InsertReversed(main, pend, 2) == [Leaf(2), Leaf(4), Leaf(6), Leaf(9)];
  }

  /** The chains built from two sorted pairs. */
  lemma ChainsOfTwoPairs(p: Elem, q: Elem)
    requires p.Pair? && q.Pair?
    ensures [p.lesser] + Greaters([p, q]) == [p.lesser, p.greater, q.greater]
    ensures forall stragglers :: Lessers([p, q])[1..] + stragglers == [q.lesser] + stragglers
  {
    assert Lessers([p, q])[1..] == [q.lesser];
  }

  /** [6, 2, 4, 9] pairs up as (6, 2) and (4, 9); normalising swaps the first. */
  lemma UnitTestPairs(xs: seq<Elem>)
    requires xs == [Leaf(6), Leaf(2), Leaf(4), Leaf(9)]
    ensures AllFrom(xs).1 == []
    ensures NormalizeAll(AllFrom(xs).0) == [Pair(Leaf(2), Leaf(6)), Pair(Leaf(4), Leaf(9))]
  {
    assert AllFrom(xs).0 == [Pair(Leaf(6), Leaf(2)), Pair(Leaf(4), Leaf(9))];
  }

  /** The recursive call of sort([6, 2, 4, 9]) returns its pairs unchanged,
      and the chains are [2, 6, 9] and [4]. */
  lemma UnitTestChains(xs: seq<Elem>)
    requires xs == [Leaf(6), Leaf(2), Leaf(4), Leaf(9)]
    ensures AllPairs(NormalizeAll(AllFrom(xs).0)) && |NormalizeAll(AllFrom(xs).0)| == 2
    ensures MergeInsertion(NormalizeAll(AllFrom(xs).0), GroupSizeBound) == NormalizeAll(AllFrom(xs).0)
    ensures [NormalizeAll(AllFrom(xs).0)[0].lesser] + Greaters(NormalizeAll(AllFrom(xs).0)) == [Leaf(2), Leaf(6), Leaf(9)]
    ensures Lessers(NormalizeAll(AllFrom(xs).0))[1..] + AllFrom(xs).1 == [Leaf(4)]
  {
    UnitTestPairs(xs);
    var sp := NormalizeAll(AllFrom(xs).0);
    TwoOrderedPairs(sp[0], sp[1], GroupSizeBound);
    ChainsOfTwoPairs(sp[0], sp[1]);
  }

  /** sort([6, 2, 4, 9]) == [2, 4, 6, 9], the unit test's expectation. */
  lemma SortsUnitTestInput(xs: seq<Elem>)
    requires xs == [Leaf(6), Leaf(2), Leaf(4), Leaf(9)]
    ensures MergeInsertion(xs, GroupSizeBound) == [Leaf(2), Leaf(4), Leaf(6), Leaf(9)]
  {
    UnitTestChains(xs);
    var sp := NormalizeAll(AllFrom(xs).0);
    Unfold(xs, GroupSizeBound);
    UnitTestInsertion([sp[0].lesser] + Greaters(sp), Lessers(sp)[1..] + AllFrom(xs).1);
  }

  /** [1, 2, 3, 4, 5] pairs up as (1, 2) and (3, 4), already in order, with
      the straggler 5. */
  lemma FivePairs(xs: seq<Elem>)
    requires xs == [Leaf(1), Leaf(2), Leaf(3), Leaf(4), Leaf(5)]
    ensures AllFrom(xs).1 == [Leaf(5)]
    ensures NormalizeAll(AllFrom(xs).0) == [Pair(Leaf(1), Leaf(2)), Pair(Leaf(3), Leaf(4))]
  {
    assert AllFrom(xs).0 == [Pair(Leaf(1), Leaf(2)), Pair(Leaf(3), Leaf(4))];
  }

  /** The chains of sort([1, 2, 3, 4, 5]), whatever the search bound: the
      main chain is [1, 2, 4] and the lesser chain [3, 5]. */
  lemma FiveChains(xs: seq<Elem>, rule: SearchBound)
    requires xs == [Leaf(1), Leaf(2), Leaf(3), Leaf(4), Leaf(5)]
    ensures AllPairs(NormalizeAll(AllFrom(xs).0)) && |NormalizeAll(AllFrom(xs).0)| == 2
    ensures MergeInsertion(NormalizeAll(AllFrom(xs).0), rule) == NormalizeAll(AllFrom(xs).0)
    ensures [NormalizeAll(AllFrom(xs).0)[0].lesser] + Greaters(NormalizeAll(AllFrom(xs).0)) == [Leaf(1), Leaf(2), Leaf(4)]
    ensures Lessers(NormalizeAll(AllFrom(xs).0))[1..] + AllFrom(xs).1 == [Leaf(3), Leaf(5)]
  {
    FivePairs(xs);
    var sp := NormalizeAll(AllFrom(xs).0);
    TwoOrderedPairs(sp[0], sp[1], rule);
    ChainsOfTwoPairs(sp[0], sp[1]);
    assert Lessers(sp)[1..] + AllFrom(xs).1 == [sp[1].lesser] + [Leaf(5)];
  }

  /** A lesser chain no longer than the first group is inserted in one pass. */
  lemma FirstGroupOnly(chain: seq<Elem>, pend: seq<Elem>, rule: SearchBound)
    requires Fits(|chain|, |pend|, 1) && 1 <= |pend| <= 2
    ensures Bound(rule, 1, |chain|) <= |chain|
    ensures InsertGroups(chain, pend, 1, rule) == InsertReversed(chain, pend, Bound(rule, 1, |chain|))
  {
    InsertGroupsStep(chain, pend, 1, rule);
    assert GroupSize(1) == 2;
    assert pend[..Taken(1, |pend|)] == pend;
  }

  /** Inserting one element with the given bound. */
  lemma InsertOne(chain: seq<Elem>, x: Elem, bound: nat, idx: int)
    requires bound <= |chain| && SearchIdx(x, chain, 0, bound) == idx
    ensures InsertReversed(chain, [x], bound) == chain[..idx] + [x] + chain[idx..]
  {
    assert [x][1..] == [];
  }

  /** The code's bound is GroupSize(1) = 2: 5 is searched for among [1, 2]
      and put before 4; then 3 is searched for among [1, 2]. */
  lemma FiveInsertionGroupSizeBound(main: seq<Elem>, pend: seq<Elem>)
    requires main == [Leaf(1), Leaf(2), Leaf(4)] && pend == [Leaf(3), Leaf(5)]
    ensures Fits(|main|, |pend|, 1)
    ensures InsertGroups(main, pend, 1, GroupSizeBound) == [Leaf(1), Leaf(2), Leaf(3), Leaf(5), Leaf(4)]
  {
    FirstGroupOnly(main, pend, GroupSizeBound);
    assert SearchIdx(pend[1], main, 0, 2) == 2;
    InsertOne(main, pend[1], 2, 2);
    var afterFive := InsertReversed(main, pend[1..], 2);
    assert afterFive == [Leaf(1), Leaf(2), Leaf(5), Leaf(4)];
    assert SearchIdx(pend[0], afterFive, 0, 2) == 2;
  }

  /** The textbook bound for the first group is 2^2 - 1 = 3, the whole main
      chain: 5 goes after 4, then 3 between 2 and 4. */
  lemma FiveInsertionTextbookBound(main: seq<Elem>, pend: seq<Elem>)
    requires main == [Leaf(1), Leaf(2), Leaf(4)] && pend == [Leaf(3), Leaf(5)]
    ensures Fits(|main|, |pend|, 1)
    ensures InsertGroups(main, pend, 1, TextbookBound) == [Leaf(1), Leaf(2), Leaf(3), Leaf(4), Leaf(5)]
  {
    FirstGroupOnly(main, pend, TextbookBound);
    assert Bound(TextbookBound, 1, 3) == 3;
    assert SearchIdx(pend[1], main, 0, 3) == 3;
    InsertOne(main, pend[1], 3, 3);
    var afterFive := InsertReversed(main, pend[1..], 3);
    assert afterFive == [Leaf(1), Leaf(2), Leaf(4), Leaf(5)];
    assert SearchIdx(pend[0], afterFive, 0, 3) == 2;
  }

  /** The code as written: with the group size as the search bound,
      sort([1, 2, 3, 4, 5]) returns [1, 2, 3, 5, 4], which is not sorted. */
  lemma GroupSizeBoundMisorders(xs: seq<Elem>)
    requires xs == [Leaf(1), Leaf(2), Leaf(3), Leaf(4), Leaf(5)]
    ensures MergeInsertion(xs, GroupSizeBound) == [Leaf(1), Leaf(2), Leaf(3), Leaf(5), Leaf(4)]
    ensures !Sorted(MergeInsertion(xs, GroupSizeBound))
  {
    FiveChains(xs, GroupSizeBound);
    var sp := NormalizeAll(AllFrom(xs).0);
    Unfold(xs, GroupSizeBound);
    FiveInsertionGroupSizeBound([sp[0].lesser] + Greaters(sp), Lessers(sp)[1..] + AllFrom(xs).1);
    var r := MergeInsertion(xs, GroupSizeBound);
    assert Key(r[3]) > Key(r[4]);
  }

  /** The same input with the textbook bound comes back sorted. */
  lemma TextbookBoundOrders(xs: seq<Elem>)
    requires xs == [Leaf(1), Leaf(2), Leaf(3), Leaf(4), Leaf(5)]
    ensures MergeInsertion(xs, TextbookBound) == xs
  {
    FiveChains(xs, TextbookBound);
    var sp := NormalizeAll(AllFrom(xs).0);
    Unfold(xs, TextbookBound);
    FiveInsertionTextbookBound([sp[0].lesser] + Greaters(sp), Lessers(sp)[1..] + AllFrom(xs).1);
  }
}
