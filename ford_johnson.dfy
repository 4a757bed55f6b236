/** `FordJohnson.sort` of lib/ford_johnson.rb: merge-insertion sort. The
    function MergeInsertion states what one call computes; the method Sort
    is the imperative code, proved to compute it. */
module FordJohnson {
  import opened Pairs
  import opened GroupSizes
  import opened BinaryInsert

  /** The upper limit each group's binary search is given. The code passes
      the group size (lib/ford_johnson.rb:41); the textbook bound is
      2^(power+1) - 1, clamped to the length of the main chain. */
  datatype SearchBound = GroupSizeBound | TextbookBound

  function Bound(rule: SearchBound, power: nat, chainLength: nat): (r: nat)
    ensures rule.GroupSizeBound? ==> r == GroupSize(power)
    ensures rule.TextbookBound? ==> r <= chainLength && r <= Pow2(power + 1) - 1
    ensures rule.TextbookBound? ==> r == chainLength || r == Pow2(power + 1) - 1
  {
    match rule
    case GroupSizeBound => GroupSize(power)
    case TextbookBound => if Pow2(power + 1) - 1 < chainLength then Pow2(power + 1) - 1 else chainLength
  }

  /** `group.reverse.each { insert }`: the group's last element is inserted
      first, its first element last, each at the index the bounded search finds. */
  function InsertReversed(chain: seq<Elem>, group: seq<Elem>, bound: nat): (r: seq<Elem>)
    requires bound <= |chain|
    ensures |r| == |chain| + |group|
    decreases |group|
  {
    if group == [] then chain
    else
      var rest := InsertReversed(chain, group[1..], bound);
      InsertAt(rest, SearchIdx(group[0], rest, 0, bound), group[0])
  }

  /** Inserting a group loses and duplicates nothing. */
  lemma {:induction false} InsertReversedPermutes(chain: seq<Elem>, group: seq<Elem>, bound: nat)
    requires bound <= |chain|
    ensures multiset(InsertReversed(chain, group, bound)) == multiset(chain) + multiset(group)
    decreases |group|
  {
    if group != [] {
      InsertReversedPermutes(chain, group[1..], bound);
      var rest := InsertReversed(chain, group[1..], bound);
      InsertAtPlaces(rest, SearchIdx(group[0], rest, 0, bound), group[0]);
      assert group == [group[0]] + group[1..];
    }
  }

  /** The sizes of the two chains when the group of `power` is about to be
      taken: the main chain exceeds what is left of the lesser chain by one
      plus twice what the earlier groups took. */
  predicate Fits(mainLength: nat, pendLength: nat, power: nat) {
    power >= 1 && (pendLength == 0 || mainLength >= pendLength + 1 + 2 * Consumed(power - 1))
  }

  /** The search of the code as written never reads past the end of the main
      chain: whenever a group is left to insert, the group size is at most
      the chain's length. */
  lemma GroupFits(mainLength: nat, pendLength: nat, power: nat)
    requires power >= 1 && pendLength >= 1
    requires Fits(mainLength, pendLength, power)
    ensures GroupSize(power) <= mainLength
  {
    ConsumedBeforeGroup(power);
  }

  /** How many elements the group of `power` takes from a lesser chain of the given length. */
  function Taken(power: nat, pendLength: nat): (n: nat)
    requires power >= 1
    ensures n <= pendLength && n <= GroupSize(power)
    ensures pendLength >= 1 ==> n >= 1
    ensures n < pendLength ==> n == GroupSize(power)
  {
    GroupSizeAtLeastTwo(power);
    if GroupSize(power) < pendLength then GroupSize(power) else pendLength
  }

  /** One pass of the `until lesser_chain.empty?` loop: shift the next group
      (at most GroupSize(power) elements) off the lesser chain and insert it
      reversed, searching the prefix the rule allows. */
  function GroupInserted(chain: seq<Elem>, pend: seq<Elem>, power: nat, rule: SearchBound): (r: seq<Elem>)
    requires power >= 1 && pend != [] && Fits(|chain|, |pend|, power)
    ensures |r| == |chain| + Taken(power, |pend|)
  {
    GroupFits(|chain|, |pend|, power);
    InsertReversed(chain, pend[..Taken(power, |pend|)], Bound(rule, power, |chain|))
  }

  /** The `until lesser_chain.empty?` loop: one group per power, until the
      lesser chain is empty. */
  function InsertGroups(chain: seq<Elem>, pend: seq<Elem>, power: nat, rule: SearchBound): (r: seq<Elem>)
    requires power >= 1
    requires Fits(|chain|, |pend|, power)
    ensures |r| == |chain| + |pend|
    decreases |pend|
  {
    if pend == [] then chain
    else
      InsertGroupsStep(chain, pend, power, rule);
      InsertGroups(GroupInserted(chain, pend, power, rule), pend[Taken(power, |pend|)..], power + 1, rule)
  }

  /** One pass of the loop keeps the chains' sizes fitting the next group;
      the code's own bound never reaches past the main chain. */
  lemma InsertGroupsStep(chain: seq<Elem>, pend: seq<Elem>, power: nat, rule: SearchBound)
    requires power >= 1 && pend != []
    requires Fits(|chain|, |pend|, power)
    ensures GroupSize(power) <= |chain| && Bound(rule, power, |chain|) <= |chain|
    ensures Fits(|chain| + Taken(power, |pend|), |pend| - Taken(power, |pend|), power + 1)
  {
    GroupFits(|chain|, |pend|, power);
  }

  lemma MultisetSplit(s: seq<Elem>, n: int)
    requires 0 <= n <= |s|
    ensures multiset(s) == multiset(s[..n]) + multiset(s[n..])
  {
    assert s == s[..n] + s[n..];
  }

  /** One group loses and duplicates nothing. */
  lemma GroupPermutes(chain: seq<Elem>, pend: seq<Elem>, power: nat, rule: SearchBound)
    requires power >= 1 && pend != [] && Fits(|chain|, |pend|, power)
    ensures multiset(GroupInserted(chain, pend, power, rule)) + multiset(pend[Taken(power, |pend|)..])
            == multiset(chain) + multiset(pend)
  {
    InsertGroupsStep(chain, pend, power, rule);
    InsertReversedPermutes(chain, pend[..Taken(power, |pend|)], Bound(rule, power, |chain|));
    MultisetSplit(pend, Taken(power, |pend|));
  }

  /** The insertion phase loses and duplicates nothing: the result is the
      main chain and the lesser chain, merged. */
  lemma {:induction false} InsertGroupsPermutes(chain: seq<Elem>, pend: seq<Elem>, power: nat, rule: SearchBound)
    requires power >= 1 && Fits(|chain|, |pend|, power)
    ensures multiset(InsertGroups(chain, pend, power, rule)) == multiset(chain) + multiset(pend)
    decreases |pend|
  {
    if pend != [] {
      InsertGroupsStep(chain, pend, power, rule);
      InsertGroupsPermutes(GroupInserted(chain, pend, power, rule), pend[Taken(power, |pend|)..], power + 1, rule);
      GroupPermutes(chain, pend, power, rule);
    }
  }

  /** The chains hold every input element exactly once: the main chain
      (the head of the lesser chain, then the greater components) and the
      rest of the lesser chain followed by the stragglers. */
  lemma ChainsHoldEveryElement(xs: seq<Elem>, sortedPairs: seq<Elem>)
    requires |xs| >= 2
    requires multiset(sortedPairs) == multiset(NormalizeAll(AllFrom(xs).0))
    ensures AllPairs(sortedPairs) && |sortedPairs| == |xs| / 2
    ensures multiset([sortedPairs[0].lesser] + Greaters(sortedPairs)) + multiset(Lessers(sortedPairs)[1..] + AllFrom(xs).1)
            == multiset(xs)
  {
    var (pairs, stragglers) := AllFrom(xs);
    assert multiset(Unpair(sortedPairs)) + multiset(stragglers) == multiset(xs) by {
      AllFromRoundTrip(xs);
      NormalizeAllKeepsComponents(pairs);
      UnpairPermutation(NormalizeAll(pairs), sortedPairs);
    }
    AllPairsPermutation(NormalizeAll(pairs), sortedPairs);
    assert |sortedPairs| == |multiset(sortedPairs)| == |NormalizeAll(pairs)|;
    UnpairSplitsIntoChains(sortedPairs);
    ChainsRegroup(Lessers(sortedPairs), Greaters(sortedPairs), stragglers);
  }

  /** Moving the lesser chain's head to the front of the main chain moves no
      element out of the two chains. */
  lemma ChainsRegroup(lessers: seq<Elem>, greaters: seq<Elem>, stragglers: seq<Elem>)
    requires lessers != []
    ensures multiset([lessers[0]] + greaters) + multiset(lessers[1..] + stragglers)
            == multiset(lessers) + multiset(greaters) + multiset(stragglers)
  {
    assert lessers == [lessers[0]] + lessers[1..];
  }

  /** What `sort(elements)` returns, with the search bound of `rule`. The
      result is a permutation of the input; inputs of size 0 or 1 come back
      unchanged. */
  function MergeInsertion(xs: seq<Elem>, rule: SearchBound): (r: seq<Elem>)
    ensures |r| == |xs| && multiset(r) == multiset(xs)
    ensures |xs| <= 1 ==> r == xs
    decreases |xs|
  {
    if |xs| <= 1 then xs
    else
      var (pairs, stragglers) := AllFrom(xs);
      var sortedPairs := MergeInsertion(NormalizeAll(pairs), rule);
      ChainsHoldEveryElement(xs, sortedPairs);
      var mainChain := [sortedPairs[0].lesser] + Greaters(sortedPairs);
      var pendChain := Lessers(sortedPairs)[1..] + stragglers;
      InsertGroupsPermutes(mainChain, pendChain, 1, rule);
      InsertGroups(mainChain, pendChain, 1, rule)
  }

  lemma DropFirst(a: seq<Elem>, b: seq<Elem>)
    requires a != []
    ensures (a + b)[0] == a[0] && (a + b)[1..] == a[1..] + b
  {
  }

  /** FordJohnson.sort(elements), as the code is written. */
  method Sort(elements: seq<Elem>) returns (sorted: seq<Elem>)
    ensures sorted == MergeInsertion(elements, GroupSizeBound)
    ensures multiset(sorted) == multiset(elements)
    decreases |elements|
  {
    if |elements| <= 1 {
      return elements;
    }
    var pairs, stragglers := AllFrom(elements).0, AllFrom(elements).1;

    // Sort within each pair: the pairs are fresh objects, held in a buffer.
    var buffer := new Elem[|pairs|](i requires 0 <= i < |pairs| => pairs[i]);
    assert buffer[..] == pairs;
    NormalizePairs(buffer);

    // Sort between pairs, recursively, by their greater components.
    var sortedPairs := Sort(buffer[..]);
    ChainsHoldEveryElement(elements, sortedPairs);

    var greaterChain := Greaters(sortedPairs);
    var lesserChain := Lessers(sortedPairs) + stragglers;
    // greater_chain.unshift(lesser_chain.shift)
    greaterChain := [lesserChain[0]] + greaterChain;
    lesserChain := lesserChain[1..];
    DropFirst(Lessers(sortedPairs), stragglers);

    sorted := InsertLesserChain(greaterChain, lesserChain);
  }

  /** The `until lesser_chain.empty?` loop of `sort`, with its group-size
      enumerator. */
  method InsertLesserChain(mainChain: seq<Elem>, pendChain: seq<Elem>) returns (greaterChain: seq<Elem>)
    requires Fits(|mainChain|, |pendChain|, 1)
    ensures greaterChain == InsertGroups(mainChain, pendChain, 1, GroupSizeBound)
  {
    greaterChain := mainChain;
    var lesserChain := pendChain;
    var enumerator := new GroupSizeEnumerator();
    while lesserChain != []
      invariant enumerator.Valid()
      invariant Fits(|greaterChain|, |lesserChain|, enumerator.power)
      invariant InsertGroups(greaterChain, lesserChain, enumerator.power, GroupSizeBound)
                == InsertGroups(mainChain, pendChain, 1, GroupSizeBound)
      decreases |lesserChain|
    {
      ghost var power, chain, pend := enumerator.power, greaterChain, lesserChain;
      InsertGroupsStep(greaterChain, lesserChain, power, GroupSizeBound);
      var groupSize := enumerator.Next();
      // lesser_chain.shift(group_size)
      var n := if groupSize < |lesserChain| then groupSize else |lesserChain|;
      assert n == Taken(power, |lesserChain|);
      var group := lesserChain[..n];
      lesserChain := lesserChain[n..];
      greaterChain := InsertGroupElements(greaterChain, group, groupSize);
      assert greaterChain == GroupInserted(chain, pend, power, GroupSizeBound);
      assert enumerator.power == power + 1;
    }
  }

  /** `group.reverse.each`: insert the group, last element first, each at the
      index `binary_insert_idx` returns for the bound `groupSize`. */
  method InsertGroupElements(chain: seq<Elem>, group: seq<Elem>, groupSize: int) returns (greaterChain: seq<Elem>)
    requires 0 <= groupSize <= |chain|
    ensures greaterChain == InsertReversed(chain, group, groupSize)
  {
    greaterChain := chain;
    var i := |group|;
    while i > 0
      invariant 0 <= i <= |group|
      invariant greaterChain == InsertReversed(chain, group[i..], groupSize)
    {
      i := i - 1;
      assert group[i..][1..] == group[i + 1..];
      var idx := BinaryInsertIdx(group[i], greaterChain, groupSize);
      greaterChain := InsertAt(greaterChain, idx, group[i]);
    }
    assert group[0..] == group;
  }
}
